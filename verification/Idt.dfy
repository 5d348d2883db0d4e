/** Gate descriptors, as the kernel lays them out and the processor takes them apart. */
module Idt {
  import opened Powers
  import opened Bytes

  const NR_IRQ := 256
  const INTERRUPT_GATE_32 := 0xE
  const TRAP_GATE_32 := 0xF
  const KERNEL_CODE_SELECTOR := 8   // SEG_KERNEL_CODE << 3
  const DPL_KERNEL := 0
  const DPL_USER := 3

  type uint16 = x: int | 0 <= x < 0x1_0000
  type uint4 = x: int | 0 <= x < 0x10
  type uint2 = x: int | 0 <= x < 4

  /** Section 9.5 of the 80386 Programmer's Reference Manual. */
  datatype GateDesc = GateDesc(
    offset_15_0: uint16, selector: uint16, pad0: byte, kind: uint4, system: bit, privilege_level: uint2,
        present: bit, offset_31_16: uint16)

  /** The two double words of a descriptor in memory. */
  function Low(g: GateDesc): (v: uint32) {
    g.offset_15_0 + 0x1_0000 * g.selector
  }

  function High(g: GateDesc): (v: uint32) {
    g.pad0 + 0x100 * g.kind + 0x1000 * g.system + 0x2000 * g.privilege_level + 0x8000 * g.present
    + 0x1_0000 * g.offset_31_16
  }

  /** The bit fields of two double words. */
  function Decode(low: uint32, high: uint32): GateDesc {
    GateDesc(low % 0x1_0000, low / 0x1_0000, high % 0x100, high / 0x100 % 0x10, high / 0x1000 % 2, high / 0x2000 % 4,
             high / 0x8000 % 2, high / 0x1_0000)
  }

  /** The processor reads back the fields that the kernel wrote. */
  lemma DecodeEncoded(g: GateDesc)
    ensures Decode(Low(g), High(g)) == g
  {
    var h := High(g);
    DivUnique(Low(g), 0x1_0000, g.selector, g.offset_15_0);
    DivUnique(h, 0x1_0000, g.offset_31_16,
              g.pad0 + 0x100 * g.kind + 0x1000 * g.system + 0x2000 * g.privilege_level + 0x8000 * g.present);
    var d := 2 * g.offset_31_16 + g.present;
    DivUnique(h, 0x8000, d, g.pad0 + 0x100 * g.kind + 0x1000 * g.system + 0x2000 * g.privilege_level);
    DivUnique(d, 2, g.offset_31_16, g.present);
    var c := 4 * d + g.privilege_level;
    DivUnique(h, 0x2000, c, g.pad0 + 0x100 * g.kind + 0x1000 * g.system);
    DivUnique(c, 4, d, g.privilege_level);
    var b := 2 * c + g.system;
    DivUnique(h, 0x1000, b, g.pad0 + 0x100 * g.kind);
    DivUnique(b, 2, c, g.system);
    var a := 0x10 * b + g.kind;
    DivUnique(h, 0x100, a, g.pad0);
    DivUnique(a, 0x10, b, g.kind);
  }

  function Offset(g: GateDesc): uint32 {
    g.offset_15_0 + 0x1_0000 * g.offset_31_16
  }

  /** Where two double words lead, as section 9.5 draws them: the outer halves are the address. */
  lemma GateFromWords(low: uint32, high: uint32)
    ensures var g := Decode(low, high);
      && Offset(g) == high / 0x1_0000 * 0x1_0000 + low % 0x1_0000 && g.selector == low / 0x1_0000
      && g.kind == high / 0x100 % 0x10 && g.privilege_level == high / 0x2000 % 4 && g.present == high / 0x8000 % 2
  {
  }

  // ---------- the kernel's table ----------

  /** Where the assembler put the entry points. */
  datatype Handlers = Handlers(vec: seq<uint32>, vecsys: uint32, irq0: uint32, irq1: uint32, irq2: uint32,
      irq14: uint32, irq_empty: uint32)

  /** The handler of each vector, and whether it is entered with interrupts off. */
  function HandlerOf(h: Handlers, n: nat): uint32
    requires |h.vec| == 15
  {
    if n < 15 then h.vec[n]
    else if n == 32 then h.irq0
    else if n == 33 then h.irq1
    else if n == 34 then h.irq2
    else if n == 46 then h.irq14
    else if n == 0x80 then h.vecsys
    else h.irq_empty
  }

  predicate MasksInterrupts(n: nat) { n == 32 || n == 33 || n == 34 || n == 46 }

  function GateFor(kind: uint4, selector: uint16, offset: uint32, dpl: uint2): GateDesc {
    GateDesc(offset % 0x1_0000, selector, 0, kind, 0, dpl, 1, offset / 0x1_0000)
  }

  lemma GateOffset(kind: uint4, selector: uint16, offset: uint32, dpl: uint2)
    ensures Offset(GateFor(kind, selector, offset, dpl)) == offset
  {
  }

  /** The descriptor that the table must hold for a vector. */
  predicate Serves(g: GateDesc, h: Handlers, n: nat)
    requires |h.vec| == 15
  {
    && Offset(g) == HandlerOf(h, n) && g.selector == KERNEL_CODE_SELECTOR && g.present == 1 && g.system == 0
    && g.kind == (if MasksInterrupts(n) then INTERRUPT_GATE_32 else TRAP_GATE_32)
    && g.privilege_level == (if n == 0x80 then DPL_USER else DPL_KERNEL)
  }

  method SetIntr(idt: array<GateDesc>, n: nat, selector: uint16, offset: uint32, dpl: uint2)
    requires n < idt.Length
    modifies idt
    ensures idt[..] == old(idt[..])[n := GateFor(INTERRUPT_GATE_32, selector, offset, dpl)]
  {
    idt[n] := idt[n].(offset_15_0 := offset % 0x1_0000);
    idt[n] := idt[n].(selector := selector, pad0 := 0, kind := INTERRUPT_GATE_32, system := 0);
    idt[n] := idt[n].(privilege_level := dpl, present := 1);
    idt[n] := idt[n].(offset_31_16 := offset / 0x1_0000);
  }

  method SetTrap(idt: array<GateDesc>, n: nat, selector: uint16, offset: uint32, dpl: uint2)
    requires n < idt.Length
    modifies idt
    ensures idt[..] == old(idt[..])[n := GateFor(TRAP_GATE_32, selector, offset, dpl)]
  {
    idt[n] := idt[n].(offset_15_0 := offset % 0x1_0000);
    idt[n] := idt[n].(selector := selector, pad0 := 0, kind := TRAP_GATE_32, system := 0);
    idt[n] := idt[n].(privilege_level := dpl, present := 1);
    idt[n] := idt[n].(offset_31_16 := offset / 0x1_0000);
  }

  /** `init_idt`: every vector gets a gate, and each named vector its own. */
  method InitIdt(idt: array<GateDesc>, h: Handlers)
    requires idt.Length == NR_IRQ && |h.vec| == 15
    modifies idt
    ensures forall n | 0 <= n < NR_IRQ :: Serves(idt[n], h, n)
    ensures forall n | 0 <= n < NR_IRQ :: LaidOut(Low(idt[n]), High(idt[n]), HandlerOf(h, n), n)
  {
    hide GateFor, Offset, LaidOut, Low, High;
    var i := 0;
    while i < NR_IRQ
      invariant i <= NR_IRQ
      invariant forall n | 0 <= n < i :: idt[n] == GateFor(TRAP_GATE_32, KERNEL_CODE_SELECTOR, h.irq_empty,
          DPL_KERNEL)
    {
      SetTrap(idt, i, KERNEL_CODE_SELECTOR, h.irq_empty, DPL_KERNEL);
      i := i + 1;
    }
    // the fifteen processor exceptions, one call each in the source
    var v := 0;
    while v < 15
      invariant v <= 15
      invariant forall n | 0 <= n < v :: idt[n] == GateFor(TRAP_GATE_32, KERNEL_CODE_SELECTOR, h.vec[n], DPL_KERNEL)
      invariant forall n | v <= n < NR_IRQ :: idt[n] == GateFor(TRAP_GATE_32, KERNEL_CODE_SELECTOR, h.irq_empty,
          DPL_KERNEL)
    {
      SetTrap(idt, v, KERNEL_CODE_SELECTOR, h.vec[v], DPL_KERNEL);
      v := v + 1;
    }
    SetTrap(idt, 0x80, KERNEL_CODE_SELECTOR, h.vecsys, DPL_USER);
    SetIntr(idt, 32 + 0, KERNEL_CODE_SELECTOR, h.irq0, DPL_KERNEL);
    SetIntr(idt, 32 + 1, KERNEL_CODE_SELECTOR, h.irq1, DPL_KERNEL);
    SetIntr(idt, 32 + 2, KERNEL_CODE_SELECTOR, h.irq2, DPL_KERNEL);
    SetIntr(idt, 32 + 14, KERNEL_CODE_SELECTOR, h.irq14, DPL_KERNEL);
    forall n | 0 <= n < NR_IRQ
      ensures Serves(idt[n], h, n) && LaidOut(Low(idt[n]), High(idt[n]), HandlerOf(h, n), n)
    {
      assert idt[n] == GateOf(h, n);
      GateServes(h, n);
      GateLaidOut(h, n);
    }
  }

  /**
   * The double words of vector `n` as section 9.5 draws them: selector 8 over the low half of the handler's address;
   * the high half over present bit, privilege and type, which are 0x8e for the interrupt gates, 0xef for 0x80 and
   * 0x8f for the others.
   */
  predicate LaidOut(low: uint32, high: uint32, handler: uint32, n: nat) {
    && low == 8 * 0x1_0000 + handler % 0x1_0000
    && high == handler / 0x1_0000 * 0x1_0000
               + 0x100 * (if n in {32, 33, 34, 46} then 0x8e else if n == 0x80 then 0xef else 0x8f)
  }

  lemma GateLaidOut(h: Handlers, n: nat)
    requires |h.vec| == 15
    ensures LaidOut(Low(GateOf(h, n)), High(GateOf(h, n)), HandlerOf(h, n), n)
  {
  }

  /** The entry points by name. */
  lemma HandlersByVector(h: Handlers)
    requires |h.vec| == 15
    ensures forall n: nat | n < 15 :: HandlerOf(h, n) == h.vec[n]
    ensures HandlerOf(h, 32) == h.irq0 && HandlerOf(h, 33) == h.irq1 && HandlerOf(h, 34) == h.irq2
    ensures HandlerOf(h, 46) == h.irq14 && HandlerOf(h, 128) == h.vecsys
    ensures forall n: nat | 15 <= n && n !in {32, 33, 34, 46, 128} :: HandlerOf(h, n) == h.irq_empty
  {
  }

  function GateOf(h: Handlers, n: nat): GateDesc
    requires |h.vec| == 15
  {
    GateFor(if MasksInterrupts(n) then INTERRUPT_GATE_32 else TRAP_GATE_32, KERNEL_CODE_SELECTOR, HandlerOf(h, n),
            if n == 0x80 then DPL_USER else DPL_KERNEL)
  }

  lemma GateServes(h: Handlers, n: nat)
    requires |h.vec| == 15
    ensures Serves(GateOf(h, n), h, n)
  {
    GateOffset(if MasksInterrupts(n) then INTERRUPT_GATE_32 else TRAP_GATE_32, KERNEL_CODE_SELECTOR, HandlerOf(h, n),
               if n == 0x80 then DPL_USER else DPL_KERNEL);
  }
}
