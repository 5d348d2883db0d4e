/** Entering a handler through a gate and coming back. */
module Interrupt {
  import opened Powers
  import opened Bytes
  import opened Cache
  import opened Paging
  import opened Isolation
  import opened Idt
  import opened Segment

  const IF_BIT := 0x200

  predicate InterruptsOn(eflags: uint32) { eflags / IF_BIT % 2 == 1 }

  /** EFLAGS with IF cleared. */
  function Masked(eflags: uint32): (r: uint32)
    ensures !InterruptsOn(r) && r <= eflags && (InterruptsOn(eflags) ==> r == eflags - IF_BIT)
        && (!InterruptsOn(eflags) ==> r == eflags)
  {
    if InterruptsOn(eflags) then
      ClearBit(eflags);
      eflags - IF_BIT
    else eflags
  }

  lemma ClearBit(eflags: uint32)
    requires InterruptsOn(eflags)
    ensures eflags >= IF_BIT && !InterruptsOn(eflags - IF_BIT)
  {
    var q := eflags / IF_BIT;
    DivMod(eflags, IF_BIT);
    DivUnique(eflags - IF_BIT, IF_BIT, q - 1, eflags % IF_BIT);
  }

  /** Bit 9 is cleared, and no other bit changes. */
  lemma MaskedBits(eflags: uint32, k: nat)
    ensures BitSet(Masked(eflags), k) <==> k != 9 && BitSet(eflags, k)
  {
    hide BitSet, Pow2;
    Pow2At9();
    BitSetIs(eflags, 9);
    if InterruptsOn(eflags) {
      BitCleared(eflags, 9, k);
    }
  }

  lemma InterruptsOnIsBit9(eflags: uint32)
    ensures InterruptsOn(eflags) <==> BitSet(eflags, 9)
  {
    hide Pow2;
    Pow2At9();
  }

  lemma Pow2At9()
    ensures Pow2(9) == IF_BIT
  {
  }

  lemma BitSetIs(x: nat, k: nat)
    ensures BitSet(x, k) <==> x / Pow2(k) % 2 == 1
  {
  }

  /** EFLAGS bit by bit after entering through a gate: only an interrupt gate, of type 0xE, clears one, bit 9. */
  lemma EnteredBits(r: Regs, g: GateDesc)
    ensures forall k: nat ::
      BitSet(Entered(r, g).eflags, k) <==> BitSet(r.eflags, k) && !(k == 9 && g.kind == 0xE)
  {
    hide BitSet, Masked;
    forall k: nat
      ensures BitSet(Entered(r, g).eflags, k) <==> BitSet(r.eflags, k) && !(k == 9 && g.kind == 0xE)
    {
      MaskedBits(r.eflags, k);
    }
  }

  /** The stack pointer after pushing `n` bytes; it wraps. */
  function Down(esp: uint32, n: nat): (r: uint32)
    requires n <= LINEAR
  {
    if n <= esp then esp - n else esp + LINEAR - n
  }

  lemma DownSteps(esp: uint32)
    ensures var base := Down(esp, 12);
      && Down(esp, 4) == ByteAt(base, 8) && Down(Down(esp, 4), 4) == ByteAt(base, 4)
          && Down(Down(Down(esp, 4), 4), 4) == base
      && ByteAt(base, 0) == base && ByteAt(base, 12) == esp
      && ByteAt(ByteAt(base, 4), 4) == ByteAt(base, 8) && ByteAt(ByteAt(base, 8), 4) == esp
  {
  }

  lemma UpSteps(esp: uint32)
    ensures ByteAt(ByteAt(esp, 4), 4) == ByteAt(esp, 8) && ByteAt(ByteAt(esp, 8), 4) == ByteAt(esp, 12)
  {
    hide ByteAt;
    ByteAtSplit(esp, 4, 4);
    ByteAtSplit(esp, 8, 4);
  }

  // ---------- pieces of a range ----------

  lemma SubRange(base: nat, a: nat, la: nat, total: nat)
    requires a + la <= total <= LINEAR
    ensures Range(ByteAt(base, a), la) <= Range(base, total)
  {
    hide ByteAt;
    forall l | l in Range(ByteAt(base, a), la)
      ensures l in Range(base, total)
    {
      var i: nat :| i < la && l == ByteAt(ByteAt(base, a), i);
      ByteAtSplit(base, a, i);
    }
  }

  lemma RangesApart(base: nat, a: nat, la: nat, b: nat, lb: nat)
    requires a + la <= LINEAR && b + lb <= LINEAR && (a + la <= b || b + lb <= a)
    ensures Range(ByteAt(base, a), la) !! Range(ByteAt(base, b), lb)
  {
    hide ByteAt;
    forall l | l in Range(ByteAt(base, a), la)
      ensures l !in Range(ByteAt(base, b), lb)
    {
      var i: nat :| i < la && l == ByteAt(ByteAt(base, a), i);
      ByteAtSplit(base, a, i);
      if l in Range(ByteAt(base, b), lb) {
        var j: nat :| j < lb && l == ByteAt(ByteAt(base, b), j);
        ByteAtSplit(base, b, j);
        BytesApart(base, a + i, b + j);
      }
    }
  }

  /** Memory that differs from `mem` at most in bytes of isolated addresses. */
  ghost predicate Follows(mem: seq<byte>, mem': seq<byte>, m: Mapping, ls: set<nat>) {
    && |mem'| == |mem| && Isolated(mem, m, ls) && Isolated(mem', m, ls)
    && (forall l | l in ls :: Translate(mem', m, l) == Translate(mem, m, l))
    && forall a | 0 <= a < |mem| && !Reached(mem, m, ls, a) :: mem'[a] == mem[a]
  }

  /** One more write among isolated addresses: what it writes is seen, any range apart from it sees what it saw. */
  lemma Stored(mem0: seq<byte>, mem: seq<byte>, m: Mapping, ls: set<nat>, laddr: nat, bs: seq<byte>)
    requires Follows(mem0, mem, m, ls) && |bs| <= LINEAR && Range(laddr, |bs|) <= ls
    ensures Mapped(mem, m, laddr, |bs|)
    ensures var mem' := Scatter(mem, Places(mem, m, laddr, |bs|), bs);
      && Follows(mem0, mem', m, ls) && Mapped(mem', m, laddr, |bs|) && Seen(mem', m, laddr, |bs|) == bs
  {
    hide Isolated, Translate, Scatter, Seen, Places, ByteAt;
    WriteIsolated(mem, m, ls, laddr, bs);
  }

  lemma StoredElsewhere(mem0: seq<byte>, mem: seq<byte>, m: Mapping, ls: set<nat>, laddr: nat, bs: seq<byte>,
      other: nat, len: nat)
    requires Follows(mem0, mem, m, ls) && |bs| <= LINEAR && Range(laddr, |bs|) <= ls
    requires len <= LINEAR && Range(other, len) <= ls && Range(laddr, |bs|) !! Range(other, len)
    ensures Mapped(mem, m, laddr, |bs|)
    ensures var mem' := Scatter(mem, Places(mem, m, laddr, |bs|), bs);
      && Mapped(mem, m, other, len) && Mapped(mem', m, other, len)
      && Seen(mem', m, other, len) == Seen(mem, m, other, len)
  {
    hide Isolated, Translate, Scatter, Seen, Places, ByteAt;
    WriteIsolated(mem, m, ls, laddr, bs);
    var mem' := Scatter(mem, Places(mem, m, laddr, |bs|), bs);
    forall l | l in Range(other, len)
      ensures l in ls && l !in Range(laddr, |bs|)
    {
    }
    RangeMapped(mem, m, ls, other, len);
    OnlyIsolated(mem, m, ls);
    SeenElsewhere(mem, mem', m, ls, other, len);
  }

  lemma OnlyIsolated(mem: seq<byte>, m: Mapping, ls: set<nat>)
    requires Isolated(mem, m, ls)
    ensures forall l | l in ls :: Reaches(mem, m, l)
  {
  }

  // ---------- what is on the stack and in the table ----------

  /** The registers that an interrupt saves and changes. */
  datatype Regs = Regs(eip: uint32, cs: uint16, eflags: uint32, esp: uint32)

  /** The double word that the processor reads at a linear address. */
  function Word(mem: seq<byte>, m: Mapping, a: nat): (v: uint32)
    requires Mapped(mem, m, a, 4)
    ensures v == LE(Seen(mem, m, a, 4))
  {
    LEBound(Seen(mem, m, a, 4));
    SpanValues();
    LE(Seen(mem, m, a, 4))
  }

  function GateAt(idtr_base: uint32, n: nat): (a: nat)
    ensures a < LINEAR
  {
    ByteAt(idtr_base, n * 8)
  }

  predicate GateMapped(mem: seq<byte>, m: Mapping, idtr_base: uint32, n: nat) {
    Mapped(mem, m, GateAt(idtr_base, n), 4) && Mapped(mem, m, ByteAt(GateAt(idtr_base, n), 4), 4)
  }

  /** The gate of vector `n` as memory shows it. */
  function GateSeen(mem: seq<byte>, m: Mapping, idtr_base: uint32, n: nat): GateDesc
    requires GateMapped(mem, m, idtr_base, n)
  {
    Decode(Word(mem, m, GateAt(idtr_base, n)), Word(mem, m, ByteAt(GateAt(idtr_base, n), 4)))
  }

  /** Where the descriptor that a selector names begins. */
  function DescAt(gdtr_base: uint32, selector: uint16): (a: nat)
    ensures a < LINEAR
  {
    ByteAt(gdtr_base, selector / 8 * 8)
  }

  predicate DescMapped(mem: seq<byte>, m: Mapping, gdtr_base: uint32, selector: uint16) {
    && Mapped(mem, m, DescAt(gdtr_base, selector), 4)
    && Mapped(mem, m, ByteAt(DescAt(gdtr_base, selector), 4), 4)
  }

  function DescSeen(mem: seq<byte>, m: Mapping, gdtr_base: uint32, selector: uint16): SegDesc
    requires DescMapped(mem, m, gdtr_base, selector)
  {
    DecodeSeg(Word(mem, m, DescAt(gdtr_base, selector)), Word(mem, m, ByteAt(DescAt(gdtr_base, selector), 4)))
  }

  /** The first assertion of `load_sreg`; both sums wrap. */
  predicate InTable(gdtr_base: uint32, gdtr_limit: uint16, selector: uint16) {
    ByteAt(gdtr_base, selector / 8 * 8 + 7) <= ByteAt(gdtr_base, gdtr_limit)
  }

  /** Where nothing wraps it says that all eight bytes of the descriptor lie within the limit. */
  lemma InTableIs(gdtr_base: uint32, gdtr_limit: uint16, selector: uint16)
    requires gdtr_base + 0x1_0007 < 0x1_0000_0000
    ensures InTable(gdtr_base, gdtr_limit, selector) <==> selector / 8 * 8 + 7 <= gdtr_limit
  {
  }

  /** All that `load_sreg` demands for a selector. */
  predicate Loadable(mem: seq<byte>, m: Mapping, gdtr_base: uint32, gdtr_limit: uint16, selector: uint16) {
    && InTable(gdtr_base, gdtr_limit, selector) && DescMapped(mem, m, gdtr_base, selector)
    && Acceptable(DescSeen(mem, m, gdtr_base, selector), selector)
  }

  /** The saved state on the stack at `esp`: EIP, CS in two bytes, EFLAGS. */
  ghost predicate FrameInMemory(mem: seq<byte>, m: Mapping, esp: uint32, r: Regs) {
    && Mapped(mem, m, esp, 4) && Mapped(mem, m, ByteAt(esp, 4), 2) && Mapped(mem, m, ByteAt(esp, 8), 4)
    && Seen(mem, m, esp, 4) == Split(r.eip, 4)
    && Seen(mem, m, ByteAt(esp, 4), 2) == Split(r.cs, 2)
    && Seen(mem, m, ByteAt(esp, 8), 4) == Split(r.eflags, 4)
  }

  /** The registers after entering through a gate. */
  function Entered(r: Regs, g: GateDesc): Regs {
    Regs(Offset(g), g.selector, if g.kind == INTERRUPT_GATE_32 then Masked(r.eflags) else r.eflags, Down(r.esp, 12))
  }

  // ---------- the three pushes ----------

  function Put(mem: seq<byte>, m: Mapping, a: nat, len: nat, v: nat): (mem': seq<byte>)
    requires Mapped(mem, m, a, len)
    ensures |mem'| == |mem|
  {
    Scatter(mem, Places(mem, m, a, len), Split(v, len))
  }

  /** Each push finds its bytes mapped when it happens; all that the emulator itself demands. */
  predicate Pushable(mem: seq<byte>, m: Mapping, r: Regs) {
    var base := Down(r.esp, 12);
    && Mapped(mem, m, ByteAt(base, 8), 4)
    && var mem1 := Put(mem, m, ByteAt(base, 8), 4, r.eflags);
    && Mapped(mem1, m, ByteAt(base, 4), 2)
    && Mapped(Put(mem1, m, ByteAt(base, 4), 2, r.cs), m, base, 4)
  }

  /** Memory after pushing EFLAGS, the two bytes of CS, and EIP. */
  function Pushed(mem: seq<byte>, m: Mapping, r: Regs): seq<byte>
    requires Pushable(mem, m, r)
  {
    var base := Down(r.esp, 12);
    Put(Put(Put(mem, m, ByteAt(base, 8), 4, r.eflags), m, ByteAt(base, 4), 2, r.cs), m, base, 4, r.eip)
  }

  /** On isolated addresses three pushes leave the frame, and change nothing else. */
  lemma FrameStored(mem0: seq<byte>, m: Mapping, ls: set<nat>, r: Regs)
    requires Isolated(mem0, m, ls) && Range(Down(r.esp, 12), 12) <= ls
    ensures Pushable(mem0, m, r)
    ensures var mem := Pushed(mem0, m, r);
      Follows(mem0, mem, m, ls) && FrameInMemory(mem, m, Down(r.esp, 12), r)
  {
    hide Isolated, Follows, Translate, Scatter, Seen, Places, ByteAt, Split, Down, Range, Mapped, LE;
    var base := Down(r.esp, 12);
    assert ByteAt(base, 0) == base by { DownSteps(r.esp); }
    SubRange(base, 0, 4, 12);
    SubRange(base, 4, 2, 12);
    SubRange(base, 8, 4, 12);
    RangesApart(base, 8, 4, 4, 2);
    RangesApart(base, 8, 4, 0, 4);
    RangesApart(base, 4, 2, 0, 4);
    FollowsItself(mem0, m, ls);
    var w1, w2, w3 := ByteAt(base, 8), ByteAt(base, 4), base;
    Stored(mem0, mem0, m, ls, w1, Split(r.eflags, 4));
    var mem1 := Put(mem0, m, w1, 4, r.eflags);
    Stored(mem0, mem1, m, ls, w2, Split(r.cs, 2));
    var mem2 := Put(mem1, m, w2, 2, r.cs);
    StoredElsewhere(mem0, mem1, m, ls, w2, Split(r.cs, 2), w1, 4);
    Stored(mem0, mem2, m, ls, w3, Split(r.eip, 4));
    StoredElsewhere(mem0, mem2, m, ls, w3, Split(r.eip, 4), w1, 4);
    StoredElsewhere(mem0, mem2, m, ls, w3, Split(r.eip, 4), w2, 2);
  }

  /** A double word apart from the frame is seen as it was. */
  lemma WordKept(mem0: seq<byte>, m: Mapping, ls: set<nat>, r: Regs, a: nat)
    requires Isolated(mem0, m, ls) && Range(Down(r.esp, 12), 12) <= ls
    requires Range(a, 4) <= ls && Range(Down(r.esp, 12), 12) !! Range(a, 4)
    ensures Pushable(mem0, m, r) && Mapped(mem0, m, a, 4)
    ensures var mem := Pushed(mem0, m, r); Mapped(mem, m, a, 4) && Word(mem, m, a) == Word(mem0, m, a)
  {
    hide Isolated, Follows, Translate, Scatter, Seen, Places, ByteAt, Split, Down, Range, Mapped, LE;
    var base := Down(r.esp, 12);
    assert ByteAt(base, 0) == base by { DownSteps(r.esp); }
    SubRange(base, 0, 4, 12);
    SubRange(base, 4, 2, 12);
    SubRange(base, 8, 4, 12);
    FollowsItself(mem0, m, ls);
    Stored(mem0, mem0, m, ls, ByteAt(base, 8), Split(r.eflags, 4));
    StoredElsewhere(mem0, mem0, m, ls, ByteAt(base, 8), Split(r.eflags, 4), a, 4);
    var mem1 := Put(mem0, m, ByteAt(base, 8), 4, r.eflags);
    Stored(mem0, mem1, m, ls, ByteAt(base, 4), Split(r.cs, 2));
    StoredElsewhere(mem0, mem1, m, ls, ByteAt(base, 4), Split(r.cs, 2), a, 4);
    var mem2 := Put(mem1, m, ByteAt(base, 4), 2, r.cs);
    Stored(mem0, mem2, m, ls, base, Split(r.eip, 4));
    StoredElsewhere(mem0, mem2, m, ls, base, Split(r.eip, 4), a, 4);
  }

  /** On isolated addresses three pushes leave the frame and do not touch the gate. */
  lemma FramePushed(mem0: seq<byte>, m: Mapping, ls: set<nat>, r: Regs, gate: nat)
    requires Isolated(mem0, m, ls) && gate < LINEAR
    requires Range(Down(r.esp, 12), 12) <= ls && Range(gate, 8) <= ls && Range(Down(r.esp, 12), 12) !! Range(gate, 8)
    ensures Pushable(mem0, m, r)
    ensures var mem := Pushed(mem0, m, r);
      && Follows(mem0, mem, m, ls) && FrameInMemory(mem, m, Down(r.esp, 12), r)
      && Mapped(mem0, m, gate, 4) && Mapped(mem0, m, ByteAt(gate, 4), 4)
      && Mapped(mem, m, gate, 4) && Mapped(mem, m, ByteAt(gate, 4), 4)
      && Word(mem, m, gate) == Word(mem0, m, gate) && Word(mem, m, ByteAt(gate, 4)) == Word(mem0, m, ByteAt(gate, 4))
  {
    hide Isolated, Follows, FrameInMemory, Pushable, Pushed, ByteAt, Down, Range, Mapped, Word;
    assert ByteAt(gate, 0) == gate by { NoStep(gate); }
    SubRange(gate, 0, 4, 8);
    SubRange(gate, 4, 4, 8);
    FrameStored(mem0, m, ls, r);
    WordKept(mem0, m, ls, r, gate);
    WordKept(mem0, m, ls, r, ByteAt(gate, 4));
  }

  lemma NoStep(gate: nat)
    requires gate < LINEAR
    ensures ByteAt(gate, 0) == gate
  {
  }

  lemma FollowsItself(mem: seq<byte>, m: Mapping, ls: set<nat>)
    requires Isolated(mem, m, ls)
    ensures Follows(mem, mem, m, ls)
  {
  }

  /** Popping CS reads four bytes and keeps the low two. */
  lemma PoppedSelector(mem: seq<byte>, m: Mapping, a: nat, cs: uint16)
    requires Mapped(mem, m, a, 4) && Mapped(mem, m, a, 2) && Seen(mem, m, a, 2) == Split(cs, 2)
    ensures Word(mem, m, a) % 0x1_0000 == cs
  {
    hide Split, LE, Span, Seen, Mapped, ByteAt;
    var bs := Seen(mem, m, a, 4);
    forall i | 0 <= i < 2
      ensures bs[i] == Seen(mem, m, a, 2)[i]
    {
      SeenAt(mem, m, a, 4, i);
      SeenAt(mem, m, a, 2, i);
    }
    assert bs == bs[..2] + bs[2..] && bs[..2] == Split(cs, 2);
    LEConcat(bs[..2], bs[2..]);
    LESplit(cs, 2);
    SpanValues();
    DivUnique(LE(bs), 0x1_0000, LE(bs[2..]), cs);
  }

  lemma Popped(mem: seq<byte>, m: Mapping, a: nat, v: uint32)
    requires Mapped(mem, m, a, 4) && Seen(mem, m, a, 4) == Split(v, 4)
    ensures Word(mem, m, a) == v
  {
    hide Split, LE, Span, Seen, Mapped;
    LESplit(v, 4);
    SpanValues();
  }

  /** Popping a frame gives the saved registers. */
  lemma FramePopped(mem: seq<byte>, m: Mapping, esp: uint32, r: Regs)
    requires FrameInMemory(mem, m, esp, r) && Mapped(mem, m, ByteAt(esp, 4), 4)
    ensures Word(mem, m, esp) == r.eip && Word(mem, m, ByteAt(esp, 4)) % 0x1_0000 == r.cs
    ensures Word(mem, m, ByteAt(esp, 8)) == r.eflags
  {
    hide Split, LE, Seen, Mapped, ByteAt;
    Popped(mem, m, esp, r.eip);
    PoppedSelector(mem, m, ByteAt(esp, 4), r.cs);
    Popped(mem, m, ByteAt(esp, 8), r.eflags);
  }

  /** The addresses that entering vector `n` touches: the new stack frame and the gate. */
  function Touched(esp: uint32, idtr_base: uint32, n: nat): set<nat> {
    Range(Down(esp, 12), 12) + Range(GateAt(idtr_base, n), 8)
  }

  /** Frame and gate are apart from each other and from the entries that translate them. */
  ghost predicate Apart(mem: seq<byte>, m: Mapping, esp: uint32, idtr_base: uint32, n: nat) {
    && Isolated(mem, m, Touched(esp, idtr_base, n))
    && Range(Down(esp, 12), 12) !! Range(GateAt(idtr_base, n), 8)
  }

  /** Then the emulator's demands are met, and the gate seen is the one that was there before the pushes. */
  lemma ApartIsEnough(mem: seq<byte>, m: Mapping, r: Regs, idtr_base: uint32, n: nat)
    requires Apart(mem, m, r.esp, idtr_base, n)
    ensures Pushable(mem, m, r) && GateMapped(mem, m, idtr_base, n)
    ensures var mem' := Pushed(mem, m, r);
      && Follows(mem, mem', m, Touched(r.esp, idtr_base, n)) && FrameInMemory(mem', m, Down(r.esp, 12), r)
      && GateMapped(mem', m, idtr_base, n) && GateSeen(mem', m, idtr_base, n) == GateSeen(mem, m, idtr_base, n)
      && Mapped(mem', m, ByteAt(Down(r.esp, 12), 4), 4)
  {
    hide Isolated, Follows, FrameInMemory, Pushable, Pushed, Range, Mapped, ByteAt, GateAt, Down, Word, Decode;
    var ls, base := Touched(r.esp, idtr_base, n), Down(r.esp, 12);
    FramePushed(mem, m, ls, r, GateAt(idtr_base, n));
    SubRange(base, 4, 4, 12);
    var mem' := Pushed(mem, m, r);
    FollowsIsolated(mem, mem', m, ls);
    RangeMapped(mem', m, ls, ByteAt(base, 4), 4);
  }

  lemma FollowsIsolated(mem: seq<byte>, mem': seq<byte>, m: Mapping, ls: set<nat>)
    requires Follows(mem, mem', m, ls)
    ensures Isolated(mem', m, ls)
  {
  }

  /** The registers that name the descriptor tables. */
  datatype TableRegs = TableRegs(idtr_base: uint32, gdtr_base: uint32, gdtr_limit: uint16)

  /**
   * What the emulator demands for entering vector `n`: mapped stack, a mapped gate once the stack is pushed,
   * and a segment that can be loaded.
   */
  ghost predicate Enterable(mem: seq<byte>, m: Mapping, r: Regs, t: TableRegs, n: nat) {
    && Pushable(mem, m, r) && GateMapped(Pushed(mem, m, r), m, t.idtr_base, n)
    && var mem' := Pushed(mem, m, r);
    Loadable(mem', m, t.gdtr_base, t.gdtr_limit, GateSeen(mem', m, t.idtr_base, n).selector)
  }

  // ---------- the processor ----------

  class Processor {
    const m: Mmu
    var eip: uint32
    var cs: uint16
    var eflags: uint32
    var esp: uint32
    var idtr_base: uint32
    var gdtr_base: uint32
    var gdtr_limit: uint16
    /** The invisible part of CS. */
    var code: Hidden

    constructor (mmu: Mmu, init_eip: uint32)
      ensures m == mmu && Registers() == Regs(init_eip, 0, 0, 0x7FF_FFF0)
      ensures idtr_base == gdtr_base == gdtr_limit == 0
    {
      m := mmu;
      eip, cs, eflags, esp := init_eip, 0, 0, 0x7FF_FFF0;
      idtr_base, gdtr_base, gdtr_limit, code := 0, 0, 0, Hidden(0, 0, 0, 0, 0);
    }

    function Registers(): Regs
      reads this
    {
      Regs(eip, cs, eflags, esp)
    }

    ghost function Memory(): seq<byte>
      reads m.pm, m.pm.hw_mem
    {
      m.pm.hw_mem[..]
    }

    /** What the emulator demands for entering vector `n` from `r`. */
    ghost predicate CanEnterFrom(r: Regs, n: nat)
      reads this, m, m.pm, m.pm.hw_mem
    {
      Enterable(Memory(), m.CurrentMapping(), r, Tables(), n)
    }

    function Tables(): TableRegs
      reads this
    {
      TableRegs(idtr_base, gdtr_base, gdtr_limit)
    }

    /** `load_sreg` for CS: the descriptor is read through the page tables, and its assertions hold. */
    method LoadCs()
      requires m.Valid() && Loadable(Memory(), m.CurrentMapping(), gdtr_base, gdtr_limit, cs)
      modifies `code, m.pm.cache
      ensures m.Valid() && Memory() == old(Memory())
      ensures code == Loaded(DescSeen(Memory(), m.CurrentMapping(), gdtr_base, cs))
    {
      hide Translate, Gather, Places, ByteAt, Mapped, AllMatch, NoneTwice, LE, DecodeSeg, Loaded;
      ghost var mem, mp := Memory(), m.CurrentMapping();
      var index, rpl := cs / 8, cs % 4;
      assert ByteAt(gdtr_base, index * 8 + 7) <= ByteAt(gdtr_base, gdtr_limit);
      var low := m.LaddrRead(ByteAt(gdtr_base, index * 8), 4);
      assert low == Word(mem, mp, DescAt(gdtr_base, cs));
      var high := m.LaddrRead(ByteAt(ByteAt(gdtr_base, index * 8), 4), 4);
      assert high == Word(mem, mp, ByteAt(DescAt(gdtr_base, cs), 4));
      assert Memory() == mem;
      var segdesc := DecodeSeg(low, high);
      assert rpl <= segdesc.privilege_level;
      assert segdesc.present == 1;
      assert segdesc.granularity == 1;
      assert Limit(segdesc) == 0xf_ffff;
      code := Loaded(segdesc);
    }

    /**
     * `raise_intr`: the interrupted state is pushed, and execution continues as the gate then in memory says, in
     * the segment whose descriptor is then in memory.
     */
    method RaiseIntr(intr_no: byte)
      requires m.Valid() && CanEnterFrom(Registers(), intr_no)
      modifies `eip, `cs, `code, `eflags, `esp, m.pm.cache, m.pm.hw_mem
      ensures m.Valid() && Memory() == Pushed(old(Memory()), m.CurrentMapping(), old(Registers()))
      ensures GateMapped(Memory(), m.CurrentMapping(), idtr_base, intr_no)
      ensures Registers() == Entered(old(Registers()), GateSeen(Memory(), m.CurrentMapping(), idtr_base, intr_no))
      ensures var kind := GateSeen(Memory(), m.CurrentMapping(), idtr_base, intr_no).kind;
        forall k: nat :: BitSet(eflags, k) <==> BitSet(old(eflags), k) && !(k == 9 && kind == 0xE)
      ensures DescMapped(Memory(), m.CurrentMapping(), gdtr_base, cs)
      ensures code == Loaded(DescSeen(Memory(), m.CurrentMapping(), gdtr_base, cs))
    {
      hide Translate, Scatter, Gather, Places, ByteAt, Split, Down, Mapped, AllMatch, NoneTwice, LE;
      hide Offset, GateAt, Decode, DescMapped, DescSeen, Acceptable, InTable, Loaded;
      hide BitSet;
      ghost var r0 := Registers();
      DownSteps(esp);
      esp := Down(esp, 4);
      m.LaddrWrite(esp, 4, eflags);
      esp := Down(esp, 4);
      m.LaddrWrite(esp, 2, cs);
      esp := Down(esp, 4);
      m.LaddrWrite(esp, 4, eip);

      var idt_addr := GateAt(idtr_base, intr_no);
      ghost var mem, mp := Memory(), m.CurrentMapping();
      var low := m.LaddrRead(idt_addr, 4);
      assert low == Word(mem, mp, idt_addr);
      var high := m.LaddrRead(ByteAt(idt_addr, 4), 4);
      assert high == Word(mem, mp, ByteAt(idt_addr, 4));
      assert Memory() == mem;
      var gate_desc := Decode(low, high);
      if gate_desc.kind == INTERRUPT_GATE_32 {
        eflags := Masked(eflags);
      }
      EnteredBits(r0, gate_desc);
      assert eflags == Entered(r0, gate_desc).eflags;
      cs := gate_desc.selector;
      LoadCs();
      eip := Offset(gate_desc);
    }

    /** If the gate then in memory serves the vector, its handler is entered; apart, over a frame of the registers. */
    method RaiseThroughTable(intr_no: byte, ghost h: Handlers)
      requires m.Valid() && CanEnterFrom(Registers(), intr_no) && |h.vec| == 15
      requires var mem := Pushed(Memory(), m.CurrentMapping(), Registers());
        Serves(GateSeen(mem, m.CurrentMapping(), idtr_base, intr_no), h, intr_no)
      modifies `eip, `cs, `code, `eflags, `esp, m.pm.cache, m.pm.hw_mem
      ensures m.Valid() && eip == HandlerOf(h, intr_no) && cs == KERNEL_CODE_SELECTOR && esp == Down(old(esp), 12)
      ensures forall k: nat ::
        BitSet(eflags, k) <==> BitSet(old(eflags), k) && !(k == 9 && intr_no in {32, 33, 34, 46})
      ensures Memory() == Pushed(old(Memory()), m.CurrentMapping(), old(Registers()))
      ensures old(Isolated(Memory(), m.CurrentMapping(), Range(Down(esp, 12), 12))) ==>
        FrameInMemory(Memory(), m.CurrentMapping(), esp, old(Registers()))
      ensures DescMapped(Memory(), m.CurrentMapping(), gdtr_base, cs)
      ensures code == Loaded(DescSeen(Memory(), m.CurrentMapping(), gdtr_base, cs))
    {
      hide Isolated, FrameInMemory, Follows, Pushable, Pushed, GateMapped, GateSeen, Serves, Entered;
      hide BitSet, Down;
      hide AllMatch, NoneTwice, Range, Loadable, DescMapped, DescSeen, Loaded;
      ghost var r, mem, mp := Registers(), Memory(), m.CurrentMapping();
      if Isolated(mem, mp, Range(Down(esp, 12), 12)) {
        FrameStored(mem, mp, Range(Down(esp, 12), 12), r);
      }
      TableEnters(r, GateSeen(Pushed(mem, mp, r), mp, idtr_base, intr_no), h, intr_no);
      RaiseIntr(intr_no);
    }

    /** `raise_sw_intr`: the saved address is the one behind the two-byte instruction. */
    method RaiseSwIntr(intr_no: byte)
      requires m.Valid() && CanEnterFrom(Registers().(eip := ByteAt(eip, 2)), intr_no)
      modifies `eip, `cs, `code, `eflags, `esp, m.pm.cache, m.pm.hw_mem
      ensures var r := old(Registers()).(eip := ByteAt(old(eip), 2));
        && m.Valid() && Memory() == Pushed(old(Memory()), m.CurrentMapping(), r)
        && GateMapped(Memory(), m.CurrentMapping(), idtr_base, intr_no)
        && Registers() == Entered(r, GateSeen(Memory(), m.CurrentMapping(), idtr_base, intr_no))
      ensures DescMapped(Memory(), m.CurrentMapping(), gdtr_base, cs)
      ensures code == Loaded(DescSeen(Memory(), m.CurrentMapping(), gdtr_base, cs))
    {
      hide Pushable, Pushed, GateMapped, GateSeen, Entered, AllMatch, NoneTwice;
      hide Loadable, DescMapped, DescSeen, Loaded;
      eip := ByteAt(eip, 2);
      RaiseIntr(intr_no);
    }

    /** `iret`: the three words on the stack become EIP, CS, of which the low half counts, and EFLAGS. */
    method Iret()
      requires m.Valid() && Mapped(Memory(), m.CurrentMapping(), esp, 4)
      requires Mapped(Memory(), m.CurrentMapping(), ByteAt(esp, 4), 4)
      requires Mapped(Memory(), m.CurrentMapping(), ByteAt(esp, 8), 4)
      modifies `eip, `cs, `eflags, `esp, m.pm.cache
      ensures m.Valid() && Memory() == old(Memory())
      ensures eip == Word(Memory(), m.CurrentMapping(), old(esp))
      ensures cs == Word(Memory(), m.CurrentMapping(), ByteAt(old(esp), 4)) % 0x1_0000
      ensures eflags == Word(Memory(), m.CurrentMapping(), ByteAt(old(esp), 8)) && esp == ByteAt(old(esp), 12)
    {
      hide Translate, Gather, Places, Mapped, ByteAt, AllMatch, NoneTwice, LE;
      UpSteps(esp);
      ghost var mem, mp, esp0 := Memory(), m.CurrentMapping(), esp;
      var ret := m.LaddrRead(esp, 4);
      assert ret == Word(mem, mp, esp0);
      eip := ret;
      esp := ByteAt(esp, 4);
      var val := m.LaddrRead(esp, 4);
      assert val == Word(mem, mp, ByteAt(esp0, 4));
      cs := val % 0x1_0000;
      esp := ByteAt(esp, 4);
      assert esp == ByteAt(esp0, 8);
      var flags := m.LaddrRead(esp, 4);
      assert flags == Word(mem, mp, ByteAt(esp0, 8));
      eflags := flags;
      esp := ByteAt(esp, 4);
      assert Memory() == mem;
    }

    /** The way in and out: apart from tables and gate, the interrupted program finds its registers as they were. */
    method RaiseAndReturn(intr_no: byte)
      requires m.Valid() && CanEnterFrom(Registers(), intr_no)
      requires var mp, base := m.CurrentMapping(), Down(esp, 12);
        var mem := Pushed(Memory(), mp, Registers());
        Mapped(mem, mp, base, 4) && Mapped(mem, mp, ByteAt(base, 4), 4) && Mapped(mem, mp, ByteAt(base, 8), 4)
      modifies `eip, `cs, `code, `eflags, `esp, m.pm.cache, m.pm.hw_mem
      ensures m.Valid() && esp == old(esp)
      ensures old(Apart(Memory(), m.CurrentMapping(), esp, idtr_base, intr_no)) ==> Registers() == old(Registers())
    {
      hide Apart, FrameInMemory, Follows, Pushable, Pushed, GateMapped, GateSeen, Down, Mapped, ByteAt, Word;
      hide AllMatch, NoneTwice, Touched, Loadable, DescMapped, DescSeen, Loaded;
      ghost var r := Registers();
      DownSteps(esp);
      if Apart(Memory(), m.CurrentMapping(), esp, idtr_base, intr_no) {
        ApartIsEnough(Memory(), m.CurrentMapping(), r, idtr_base, intr_no);
        FramePopped(Pushed(Memory(), m.CurrentMapping(), r), m.CurrentMapping(), Down(esp, 12), r);
      }
      RaiseIntr(intr_no);
      Iret();
    }
  }

  /**
   * With the kernel's table, vector `n` enters its own handler in the kernel's code segment; interrupts
   * go off exactly for the timer, keyboard, audio and disk lines.
   */
  lemma TableEnters(r: Regs, g: GateDesc, h: Handlers, n: nat)
    requires |h.vec| == 15 && Serves(g, h, n)
    ensures var e := Entered(r, g);
      && e.eip == HandlerOf(h, n) && e.cs == KERNEL_CODE_SELECTOR && e.esp == Down(r.esp, 12)
      && forall k: nat :: BitSet(e.eflags, k) <==> BitSet(r.eflags, k) && !(k == 9 && n in {32, 33, 34, 46})
  {
    hide BitSet, Masked;
    EnteredBits(r, g);
  }
}
