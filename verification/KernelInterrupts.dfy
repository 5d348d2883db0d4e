/** Interrupts of the booted kernel: its descriptor tables stored through its page tables, and used through them. */
module KernelInterrupts {
  import opened Powers
  import opened Bytes
  import opened Cache
  import opened Paging
  import opened KernelPaging
  import opened Isolation
  import opened Idt
  import opened Segment
  import opened Interrupt
  import Pic

  const IDT_SIZE := 0x800   // 256 gates of two double words
  const GDT_SIZE := 24      // three segments of two double words

  // ---------- kernel addresses do not interfere ----------

  /** A page directory whose kernel entries name the tables at `pt`; the kernel's own and the user's are such. */
  ghost predicate KernelHalf(mem: seq<byte>, d: nat, pt: nat) {
    && |mem| == MEM_SIZE_B && d % 0x1000 == 0 && d + 0x1000 <= |mem| && pt % 0x1000 == 0 && pt + 0x20000 <= |mem|
    && (forall t | 0 <= t < NR_TABLES :: Slot(mem, d, KERNEL_PDE + t) == MakeEntry(pt + t * 0x1000))
    && Frames(mem, pt, 0x8000)
  }

  predicate Disjoint(a: nat, n: nat, b: nat, k: nat) {
    a + n <= b || b + k <= a
  }

  /** `n` bytes of kernel memory that meet neither the directory nor the tables. */
  predicate Block(d: nat, pt: nat, va: nat, n: nat) {
    && KOFFSET <= va && va + n <= KOFFSET + PHY_MEM
    && Disjoint(va - KOFFSET, n, d, 0x1000) && Disjoint(va - KOFFSET, n, pt, 0x20000)
  }

  /** The kernel entries of the directory lead to memory itself, whichever directory it is. */
  lemma KernelHalfWalk(mem: seq<byte>, d: nat, pt: nat, va: nat)
    requires KernelHalf(mem, d, pt) && KOFFSET <= va < KOFFSET + PHY_MEM
    ensures Walk(mem, d, va) == Some(va - KOFFSET)
  {
    hide Walk, Slot, MakeEntry, Frames;
    var k := va / PT_SIZE;
    Quotient(va, KERNEL_PDE, KERNEL_PDE + NR_TABLES);
    WalkThrough(mem, d, pt, va, k - KERNEL_PDE);
  }

  /** What the walk of a kernel address looks at lies in the directory and in the tables. */
  lemma KernelConsults(mem: seq<byte>, d: nat, pt: nat, va: nat, a: nat)
    requires KernelHalf(mem, d, pt) && KOFFSET <= va < KOFFSET + PHY_MEM && Consults(mem, Paged(d), va, a)
    ensures d <= a < d + 0x1000 || pt <= a < pt + 0x20000
  {
    hide Walk, Dword, Frames, Frame, MakeEntry;
    var k, page := va / PT_SIZE, va / PAGE_SIZE;
    Quotient(va, KERNEL_PDE, KERNEL_PDE + NR_TABLES);
    PageNumbers(va);
    var t := k - KERNEL_PDE;
    assert Slot(mem, d, KERNEL_PDE + t) == MakeEntry(pt + t * 0x1000);
    FrameNumber(pt, t);
    EntryNamesFrame(pt + t * 0x1000);
    assert Dword(mem, d + page / 0x400 * 4) == MakeEntry(pt + t * 0x1000);
  }

  /** Kernel addresses off the tables are isolated: each is translated apart, and none is consulted. */
  lemma KernelIsolated(mem: seq<byte>, d: nat, pt: nat, ls: set<nat>)
    requires KernelHalf(mem, d, pt) && forall l | l in ls :: Block(d, pt, l, 1)
    ensures Isolated(mem, Paged(d), ls)
    ensures forall l | l in ls :: Reaches(mem, Paged(d), l) && Place(mem, Paged(d), l) == l - KOFFSET
  {
    hide KernelHalf, Walk, Consults;
    assert |mem| == MEM_SIZE_B by { SizeOf(mem, d, pt); }
    forall l | l in ls
      ensures Reaches(mem, Paged(d), l) && Place(mem, Paged(d), l) == l - KOFFSET
    {
      KernelHalfWalk(mem, d, pt, l);
    }
    forall l, k | l in ls && k in ls
      ensures !Consults(mem, Paged(d), l, Place(mem, Paged(d), k))
    {
      if Consults(mem, Paged(d), l, Place(mem, Paged(d), k)) {
        KernelConsults(mem, d, pt, l, k - KOFFSET);
      }
    }
  }

  lemma SizeOf(mem: seq<byte>, d: nat, pt: nat)
    requires KernelHalf(mem, d, pt)
    ensures |mem| == MEM_SIZE_B
  {
  }

  /** The addresses of a kernel block do not wrap. */
  lemma BlockRange(d: nat, pt: nat, va: nat, n: nat)
    requires Block(d, pt, va, n)
    ensures forall l | l in Range(va, n) :: va <= l < va + n && Block(d, pt, l, 1)
  {
  }

  lemma BlocksApart(d: nat, pt: nat, va: nat, n: nat, vb: nat, k: nat)
    requires Block(d, pt, va, n) && Block(d, pt, vb, k) && Disjoint(va, n, vb, k)
    ensures Range(va, n) !! Range(vb, k)
  {
    hide Block, Range;
    BlockRange(d, pt, va, n);
    BlockRange(d, pt, vb, k);
  }

  predicate InTables(d: nat, pt: nat, a: nat) {
    d <= a < d + 0x1000 || pt <= a < pt + 0x20000
  }

  /** Bytes elsewhere may change: the kernel half stays. */
  lemma KernelHalfKept(mem: seq<byte>, mem': seq<byte>, d: nat, pt: nat)
    requires KernelHalf(mem, d, pt) && |mem'| == |mem|
    requires forall a | 0 <= a < |mem| && InTables(d, pt, a) :: mem'[a] == mem[a]
    ensures KernelHalf(mem', d, pt)
  {
    hide MakeEntry;
    forall t | 0 <= t < NR_TABLES
      ensures Slot(mem', d, KERNEL_PDE + t) == MakeEntry(pt + t * 0x1000)
    {
      assert Slot(mem', d, KERNEL_PDE + t) == Slot(mem, d, KERNEL_PDE + t);
    }
    forall j | 0 <= j < 0x8000
      ensures Slot(mem', pt, j) == MakeEntry(j * 0x1000)
    {
      assert Slot(mem', pt, j) == Slot(mem, pt, j);
    }
  }

  // ---------- descriptor tables in memory ----------

  /** A descriptor of either kind, as memory holds it. */
  datatype Words = Words(low: uint32, high: uint32)

  function GateWords(g: seq<GateDesc>): (ws: seq<Words>)
    ensures |ws| == |g| && forall n | 0 <= n < |g| :: ws[n] == Words(Low(g[n]), High(g[n]))
  {
    seq(|g|, n requires 0 <= n < |g| => Words(Low(g[n]), High(g[n])))
  }

  function SegmentWords(g: seq<SegDesc>): (ws: seq<Words>)
    ensures |ws| == |g| && forall n | 0 <= n < |g| :: ws[n] == Words(SegLow(g[n]), SegHigh(g[n]))
  {
    seq(|g|, n requires 0 <= n < |g| => Words(SegLow(g[n]), SegHigh(g[n])))
  }

  /** The descriptors in memory from `pa` on. */
  ghost predicate TableImage(mem: seq<byte>, pa: nat, ws: seq<Words>) {
    && pa + 8 * |ws| <= |mem|
    && forall n | 0 <= n < |ws| :: Slot(mem, pa, 2 * n) == ws[n].low && Slot(mem, pa, 2 * n + 1) == ws[n].high
  }

  lemma ImageStep(mem: seq<byte>, pa: nat, ws: seq<Words>, w: Words)
    requires TableImage(mem, pa, ws) && pa % 4 == 0 && pa + 8 * |ws| + 8 <= |mem|
    ensures var once := Store(mem, pa + 8 * |ws|, Split(w.low, 4));
      TableImage(Store(once, pa + 8 * |ws| + 4, Split(w.high, 4)), pa, ws + [w])
  {
    hide Slot, Store, Split;
    var n, ws' := |ws|, ws + [w];
    var once := Store(mem, pa + 8 * n, Split(w.low, 4));
    var twice := Store(once, pa + 8 * n + 4, Split(w.high, 4));
    forall i | 0 <= i < n + 1
      ensures Slot(twice, pa, 2 * i) == ws'[i].low && Slot(twice, pa, 2 * i + 1) == ws'[i].high
    {
      PokeSlot(mem, pa + 8 * n, w.low, pa, 2 * i);
      PokeSlot(once, pa + 8 * n + 4, w.high, pa, 2 * i);
      PokeSlot(mem, pa + 8 * n, w.low, pa, 2 * i + 1);
      PokeSlot(once, pa + 8 * n + 4, w.high, pa, 2 * i + 1);
    }
  }

  lemma NoImage(mem: seq<byte>, pa: nat)
    requires pa <= |mem|
    ensures TableImage(mem, pa, [])
  {
  }

  lemma ImageKept(mem: seq<byte>, mem': seq<byte>, pa: nat, ws: seq<Words>, lo: nat, hi: nat, lo': nat, hi': nat)
    requires TableImage(mem, pa, ws) && SameOutside(mem, mem', lo, hi, lo', hi')
    requires (pa + 8 * |ws| <= lo || hi <= pa) && (pa + 8 * |ws| <= lo' || hi' <= pa)
    ensures TableImage(mem', pa, ws)
  {
    assert |mem'| == |mem|;
    hide Slot, SameOutside;
    forall n | 0 <= n < |ws|
      ensures Slot(mem', pa, 2 * n) == Slot(mem, pa, 2 * n) && Slot(mem', pa, 2 * n + 1) == Slot(mem, pa, 2 * n + 1)
    {
      SameSlot(mem, mem', pa, 2 * n, lo, hi, lo', hi');
      SameSlot(mem, mem', pa, 2 * n + 1, lo, hi, lo', hi');
    }
  }

  lemma ImageAt(mem: seq<byte>, pa: nat, ws: seq<Words>, n: nat)
    requires TableImage(mem, pa, ws) && n < |ws|
    ensures pa + 8 * n + 8 <= |mem|
    ensures Dword(mem, pa + 8 * n) == ws[n].low && Dword(mem, pa + 8 * n + 4) == ws[n].high
  {
    hide Dword;
    assert Slot(mem, pa, 2 * n) == ws[n].low && Slot(mem, pa, 2 * n + 1) == ws[n].high;
  }

  lemma WordInKernel(mem: seq<byte>, d: nat, pt: nat, va: nat)
    requires KernelHalf(mem, d, pt) && KOFFSET <= va && va + 4 <= KOFFSET + PHY_MEM && va % 4 == 0
    ensures Mapped(mem, Paged(d), va, 4) && Word(mem, Paged(d), va) == Dword(mem, va - KOFFSET)
  {
    hide Translate, Places, Gather, IsRun, LE, Dword, Frames, Slot, Mapped;
    KernelHalfWalk(mem, d, pt, va);
    assert Translate(mem, Paged(d), va) == Some(va - KOFFSET) by { TranslateIsWalk(mem, d, va); }
    AlignedRun(mem, Paged(d), va, va - KOFFSET);
    GatherRun(mem, Places(mem, Paged(d), va, 4), va - KOFFSET);
    DwordIsLE(mem, va - KOFFSET);
  }

  lemma TranslateIsWalk(mem: seq<byte>, d: nat, va: nat)
    ensures Translate(mem, Paged(d), va) == Walk(mem, d, va)
  {
  }

  lemma EntryAddress(base: uint32, n: nat)
    requires base + 8 * n + 8 <= LINEAR
    ensures ByteAt(base, n * 8) == base + 8 * n && ByteAt(base + 8 * n, 4) == base + 8 * n + 4
    ensures base % 4 == 0 ==> (base + 8 * n) % 4 == 0 && (base + 8 * n + 4) % 4 == 0
  {
  }

  /** What the processor reads for entry `n` of a stored table. */
  lemma EntryInImage(mem: seq<byte>, d: nat, pt: nat, base: uint32, ws: seq<Words>, n: nat)
    requires KernelHalf(mem, d, pt) && base % 4 == 0 && KOFFSET <= base && base + 8 * |ws| <= KOFFSET + PHY_MEM
    requires TableImage(mem, base - KOFFSET, ws) && n < |ws|
    ensures var a := ByteAt(base, n * 8);
      && Mapped(mem, Paged(d), a, 4) && Mapped(mem, Paged(d), ByteAt(a, 4), 4)
      && Word(mem, Paged(d), a) == ws[n].low && Word(mem, Paged(d), ByteAt(a, 4)) == ws[n].high
  {
    hide KernelHalf, Mapped, Word, ByteAt, TableImage, Dword;
    EntryAddress(base, n);
    ImageAt(mem, base - KOFFSET, ws, n);
    TwoWords(mem, d, pt, base + 8 * n, base - KOFFSET + 8 * n);
  }

  lemma TwoWords(mem: seq<byte>, d: nat, pt: nat, a: nat, pa: nat)
    requires KernelHalf(mem, d, pt) && a == pa + KOFFSET && pa + 8 <= PHY_MEM && pa + 8 <= |mem|
    requires a % 4 == 0 && (a + 4) % 4 == 0
    ensures Mapped(mem, Paged(d), a, 4) && Mapped(mem, Paged(d), a + 4, 4)
    ensures Word(mem, Paged(d), a) == Dword(mem, pa) && Word(mem, Paged(d), a + 4) == Dword(mem, pa + 4)
  {
    hide KernelHalf, Mapped, Word, Dword;
    WordInKernel(mem, d, pt, a);
    WordInKernel(mem, d, pt, a + 4);
  }

  /** Every gate, as the processor sees it through the translation, serves its vector. */
  ghost predicate TableServes(mem: seq<byte>, m: Mapping, base: uint32, h: Handlers)
    requires |h.vec| == 15
  {
    forall n | 0 <= n < NR_IRQ :: GateMapped(mem, m, base, n) && Serves(GateSeen(mem, m, base, n), h, n)
  }

  /** Stored gates are what the processor sees. */
  lemma ImageServes(mem: seq<byte>, d: nat, pt: nat, base: uint32, g: seq<GateDesc>, h: Handlers)
    requires KernelHalf(mem, d, pt) && base % 4 == 0 && KOFFSET <= base && base + IDT_SIZE <= KOFFSET + PHY_MEM
    requires |g| == NR_IRQ && TableImage(mem, base - KOFFSET, GateWords(g))
    requires |h.vec| == 15 && forall n | 0 <= n < NR_IRQ :: Serves(g[n], h, n)
    ensures TableServes(mem, Paged(d), base, h)
  {
    hide KernelHalf, Mapped, Word, Decode, Low, High, TableImage, Serves, ByteAt;
    forall n | 0 <= n < NR_IRQ
      ensures GateMapped(mem, Paged(d), base, n) && GateSeen(mem, Paged(d), base, n) == g[n]
    {
      EntryInImage(mem, d, pt, base, GateWords(g), n);
      DecodeEncoded(g[n]);
    }
  }

  /** The kernel's code segment can be loaded, and it is the flat one. */
  ghost predicate SegmentServes(mem: seq<byte>, m: Mapping, gdtr_base: uint32, gdtr_limit: uint16) {
    && Loadable(mem, m, gdtr_base, gdtr_limit, KERNEL_CODE_SELECTOR)
    && IsKernelCode(Loaded(DescSeen(mem, m, gdtr_base, KERNEL_CODE_SELECTOR)))
  }

  lemma CodeInTable(base: uint32)
    requires base + GDT_SIZE <= LINEAR
    ensures InTable(base, GDT_SIZE - 1, KERNEL_CODE_SELECTOR)
  {
  }

  /** So are stored segments: every assertion of `load_sreg` holds for the kernel's code segment. */
  lemma SegmentImageServes(mem: seq<byte>, d: nat, pt: nat, base: uint32)
    requires KernelHalf(mem, d, pt) && base % 4 == 0 && KOFFSET <= base && base + GDT_SIZE <= KOFFSET + PHY_MEM
    requires TableImage(mem, base - KOFFSET, SegmentWords(KernelSegments()))
    ensures SegmentServes(mem, Paged(d), base, GDT_SIZE - 1)
  {
    hide KernelHalf, Mapped, Word, DecodeSeg, SegLow, SegHigh, TableImage, ByteAt, InTable, Acceptable, Loaded;
    hide SegmentFor;
    var desc := SegmentFor(DPL_KERNEL, SEG_EXECUTABLE + SEG_READABLE);
    KernelSegmentLoads(SEG_EXECUTABLE + SEG_READABLE, KERNEL_CODE_SELECTOR);
    CodeInTable(base);
    EntryInImage(mem, d, pt, base, SegmentWords(KernelSegments()), 1);
    DecodeSegEncoded(desc);
  }

  // ---------- storing the tables ----------

  /** Where the linker put a table of `n` bytes: in kernel memory above its first page, apart from the page tables. */
  predicate Placed(k: Kernel, base: nat, n: nat)
    requires k.Linked()
  {
    && base % 4 == 0 && KOFFSET + 0x1000 <= base && base + n <= KOFFSET + PHY_MEM
    && Disjoint(base, n, k.kpdir, 0x1000) && Disjoint(base, n, k.kptable, 0x20000) && Disjoint(base, n, k.updir, 0x1000)
  }

  lemma PlaceOfWord(k: Kernel, base: nat, n: nat, i: nat)
    requires k.Linked() && Placed(k, base, n) && 4 * i + 4 <= n
    ensures KOFFSET <= base && base + n <= KOFFSET + PHY_MEM && (base - KOFFSET) % 4 == 0
    ensures (base + 4 * i) % 4 == 0 && k.OffKernelTables(base + 4 * i - KOFFSET, 1)
  {
    DivMod(base, 4);
    DivUnique(base + 4 * i, 4, base / 4 + i, 0);
    DivUnique(base - KOFFSET, 4, base / 4 - KOFFSET / 4, 0);
  }

  /** Stores of kernel code into a descriptor table, translated by the kernel's own page tables. */
  method StoreTable(k: Kernel, ws: seq<Words>, base: nat)
    requires k.Linked() && k.m.Valid() && k.KernelRuns(k.Memory()) && Placed(k, base, 8 * |ws|)
    modifies k.m.pm.cache, k.m.pm.hw_mem
    ensures k.m.Valid() && k.KernelRuns(k.Memory()) && TableImage(k.Memory(), base - KOFFSET, ws)
    ensures SameOutside(old(k.Memory()), k.Memory(), base - KOFFSET, base - KOFFSET + 8 * |ws|, 0, 0)
  {
    hide Slot, Split, Store, Walk, KernelTables, AllMatch, NoneTwice, TableImage, SameOutside;
    ghost var mem0, pa, end := k.Memory(), base - KOFFSET, base - KOFFSET + 8 * |ws|;
    NoImage(mem0, pa);
    NothingChanged(mem0, pa, end);
    var i := 0;
    while i < |ws|
      invariant i <= |ws| && k.m.Valid() && k.KernelRuns(k.Memory())
      invariant TableImage(k.Memory(), pa, ws[..i])
      invariant SameOutside(mem0, k.Memory(), pa, end, 0, 0)
    {
      StoreEntry(k, ws, i, base, mem0);
      i := i + 1;
    }
    assert ws[..|ws|] == ws;
  }

  /** One entry: two double words. */
  method StoreEntry(k: Kernel, ws: seq<Words>, i: nat, base: nat, ghost mem0: seq<byte>)
    requires k.Linked() && k.m.Valid() && k.KernelRuns(k.Memory()) && Placed(k, base, 8 * |ws|) && i < |ws|
    requires base >= KOFFSET && TableImage(k.Memory(), base - KOFFSET, ws[..i])
    requires SameOutside(mem0, k.Memory(), base - KOFFSET, base - KOFFSET + 8 * |ws|, 0, 0)
    modifies k.m.pm.cache, k.m.pm.hw_mem
    ensures k.m.Valid() && k.KernelRuns(k.Memory()) && TableImage(k.Memory(), base - KOFFSET, ws[..i + 1])
    ensures SameOutside(mem0, k.Memory(), base - KOFFSET, base - KOFFSET + 8 * |ws|, 0, 0)
  {
    hide Slot, Split, Store, Walk, KernelTables, AllMatch, NoneTwice, TableImage, SameOutside, Placed;
    ghost var mem, pa, end := k.Memory(), base - KOFFSET, base - KOFFSET + 8 * |ws|;
    PlaceOfWord(k, base, 8 * |ws|, 2 * i);
    PlaceOfWord(k, base, 8 * |ws|, 2 * i + 1);
    ImageStep(mem, pa, ws[..i], ws[i]);
    assert ws[..i] + [ws[i]] == ws[..i + 1];
    PokeKernel(k, base + 8 * i, ws[i].low, mem0, pa, end);
    PokeKernel(k, base + 8 * i + 4, ws[i].high, mem0, pa, end);
  }

  /** A store by kernel code off its tables. */
  method PokeKernel(k: Kernel, va: nat, v: uint32, ghost mem0: seq<byte>, ghost lo: nat, ghost hi: nat)
    requires k.Linked() && k.m.Valid() && k.KernelRuns(k.Memory()) && va % 4 == 0
    requires KOFFSET + lo <= va && va + 4 <= KOFFSET + hi && hi <= PHY_MEM
    requires k.OffKernelTables(va - KOFFSET, 1) && SameOutside(mem0, k.Memory(), lo, hi, 0, 0)
    modifies k.m.pm.cache, k.m.pm.hw_mem
    ensures k.m.Valid() && k.KernelRuns(k.Memory())
    ensures k.Memory() == Store(old(k.Memory()), va - KOFFSET, Split(v, 4))
    ensures SameOutside(mem0, k.Memory(), lo, hi, 0, 0)
  {
    hide Slot, Split, Store, Walk, KernelTables, AllMatch, NoneTwice, SameOutside;
    ghost var mem, pd, pt, pa := k.Memory(), k.VaToPa(k.kpdir), k.VaToPa(k.kptable), va - KOFFSET;
    KernelWalk(mem, pd, pt, va);
    TablesKept(mem, pd, pt, pa, v);
    SameAfterStore(mem0, mem, pa, v, lo, hi, 0, 0);
    k.Poke(va, v, pa);
  }

  lemma NothingChanged(mem: seq<byte>, lo: nat, hi: nat)
    ensures SameOutside(mem, mem, lo, hi, 0, 0)
  {
  }

  // ---------- taking an interrupt ----------

  /** What taking an interrupt in the kernel rests on, whichever directory is in use. */
  ghost predicate Ready(mem: seq<byte>, m: Mapping, pt: nat, t: TableRegs, h: Handlers) {
    && m.Paged? && KernelHalf(mem, m.pdbr, pt)
    && |h.vec| == 15 && TableServes(mem, m, t.idtr_base, h) && SegmentServes(mem, m, t.gdtr_base, t.gdtr_limit)
  }

  function Frame12(esp: uint32): set<nat> {
    Range(Down(esp, 12), 12)
  }

  /** The gates, and the descriptor of the kernel's code segment. */
  function Descriptors(t: TableRegs): set<nat> {
    Range(t.idtr_base, IDT_SIZE) + Range(DescAt(t.gdtr_base, KERNEL_CODE_SELECTOR), 8)
  }

  /** A stack, of kernel or user, whose next frame is translated apart from the descriptors and off the page tables. */
  ghost predicate StackApart(mem: seq<byte>, m: Mapping, pt: nat, t: TableRegs, esp: uint32) {
    && m.Paged? && Isolated(mem, m, Frame12(esp) + Descriptors(t)) && Frame12(esp) !! Descriptors(t)
    && forall l | l in Frame12(esp) :: Reaches(mem, m, l) && !InTables(m.pdbr, pt, Place(mem, m, l))
  }

  lemma IsolatedPart(mem: seq<byte>, m: Mapping, ls: set<nat>, part: set<nat>)
    requires Isolated(mem, m, ls) && part <= ls
    ensures Isolated(mem, m, part)
  {
    hide Consults, Place, Reaches;
  }

  lemma GateApart(mem: seq<byte>, m: Mapping, pt: nat, t: TableRegs, esp: uint32, n: nat)
    requires StackApart(mem, m, pt, t, esp) && n < NR_IRQ
    ensures Apart(mem, m, esp, t.idtr_base, n)
  {
    hide Isolated, Range, Down, Reaches, Place, DescAt, ByteAt;
    SubRange(t.idtr_base, n * 8, 8, IDT_SIZE);
    IsolatedPart(mem, m, Frame12(esp) + Descriptors(t), Touched(esp, t.idtr_base, n));
  }

  /** The pushes leave the segment descriptor as it was. */
  lemma SegmentKept(mem: seq<byte>, m: Mapping, pt: nat, t: TableRegs, r: Regs)
    requires StackApart(mem, m, pt, t, r.esp) && SegmentServes(mem, m, t.gdtr_base, t.gdtr_limit)
    ensures Pushable(mem, m, r) && SegmentServes(Pushed(mem, m, r), m, t.gdtr_base, t.gdtr_limit)
  {
    hide Isolated, Range, Down, Reaches, Place, ByteAt, Pushable, Pushed, Mapped, Word, Acceptable, DecodeSeg;
    hide IsKernelCode;
    hide Loaded, InTable, DescAt, Follows, FrameInMemory;
    var a, ls := DescAt(t.gdtr_base, KERNEL_CODE_SELECTOR), Frame12(r.esp) + Descriptors(t);
    FramePushed(mem, m, ls, r, a);
  }

  /** The pushes leave directory and page tables as they were. */
  lemma HalfKept(mem: seq<byte>, m: Mapping, pt: nat, t: TableRegs, r: Regs)
    requires StackApart(mem, m, pt, t, r.esp) && KernelHalf(mem, m.pdbr, pt)
    ensures Pushable(mem, m, r) && KernelHalf(Pushed(mem, m, r), m.pdbr, pt)
    ensures Follows(mem, Pushed(mem, m, r), m, Frame12(r.esp))
    ensures FrameInMemory(Pushed(mem, m, r), m, Down(r.esp, 12), r)
  {
    hide KernelHalf, Isolated, Range, Down, Reaches, Place, Pushable, Pushed, FrameInMemory, Descriptors;
    IsolatedPart(mem, m, Frame12(r.esp) + Descriptors(t), Frame12(r.esp));
    FrameStored(mem, m, Frame12(r.esp), r);
    var mem' := Pushed(mem, m, r);
    forall a | 0 <= a < |mem| && InTables(m.pdbr, pt, a)
      ensures mem'[a] == mem[a]
    {
      assert !Reached(mem, m, Frame12(r.esp), a);
    }
    KernelHalfKept(mem, mem', m.pdbr, pt);
  }

  lemma ReadyKept(mem: seq<byte>, m: Mapping, pt: nat, t: TableRegs, h: Handlers, r: Regs)
    requires Ready(mem, m, pt, t, h) && StackApart(mem, m, pt, t, r.esp)
    ensures Pushable(mem, m, r) && Ready(Pushed(mem, m, r), m, pt, t, h)
  {
    hide KernelHalf, Apart, Pushable, Pushed, GateMapped, GateSeen, Serves, FrameInMemory, Follows, Touched;
    hide StackApart, SegmentServes;
    HalfKept(mem, m, pt, t, r);
    SegmentKept(mem, m, pt, t, r);
    var mem' := Pushed(mem, m, r);
    forall n | 0 <= n < NR_IRQ
      ensures GateMapped(mem', m, t.idtr_base, n) && Serves(GateSeen(mem', m, t.idtr_base, n), h, n)
    {
      GateApart(mem, m, pt, t, r.esp, n);
      ApartIsEnough(mem, m, r, t.idtr_base, n);
    }
  }

  /** So the emulator's demands are met for every vector, and the gate that counts serves it. */
  lemma ReadyEnters(mem: seq<byte>, m: Mapping, pt: nat, t: TableRegs, h: Handlers, r: Regs, n: nat)
    requires Ready(mem, m, pt, t, h) && StackApart(mem, m, pt, t, r.esp) && n < NR_IRQ
    ensures Enterable(mem, m, r, t, n)
    ensures Serves(GateSeen(Pushed(mem, m, r), m, t.idtr_base, n), h, n)
  {
    hide KernelHalf, Pushable, Pushed, GateMapped, GateSeen, StackApart, Loadable, Offset, IsKernelCode, Loaded;
    ReadyKept(mem, m, pt, t, h, r);
  }

  /**
   * Any vector, on any stack that is apart: its handler is entered in the flat kernel segment over a frame that
   * holds the registers, nothing else in memory changes, and the next interrupt can be taken in the same way.
   */
  method TakeInterrupt(cpu: Processor, intr_no: byte, ghost pt: nat, ghost h: Handlers)
    requires cpu.m.Valid() && Ready(cpu.Memory(), cpu.m.CurrentMapping(), pt, cpu.Tables(), h)
    requires StackApart(cpu.Memory(), cpu.m.CurrentMapping(), pt, cpu.Tables(), cpu.esp)
    modifies cpu`eip, cpu`cs, cpu`code, cpu`eflags, cpu`esp, cpu.m.pm.cache, cpu.m.pm.hw_mem
    ensures cpu.m.Valid() && Ready(cpu.Memory(), cpu.m.CurrentMapping(), pt, cpu.Tables(), h)
    ensures cpu.eip == HandlerOf(h, intr_no) && cpu.cs == KERNEL_CODE_SELECTOR && cpu.esp == Down(old(cpu.esp), 12)
    ensures IsKernelCode(cpu.code)
    ensures forall k: nat ::
      BitSet(cpu.eflags, k) <==> BitSet(old(cpu.eflags), k) && !(k == 9 && intr_no in {32, 33, 34, 46})
    ensures FrameInMemory(cpu.Memory(), cpu.m.CurrentMapping(), cpu.esp, old(cpu.Registers()))
    ensures Follows(old(cpu.Memory()), cpu.Memory(), cpu.m.CurrentMapping(), Frame12(old(cpu.esp)))
  {
    hide FrameInMemory, Pushable, Pushed, GateMapped, GateSeen, Serves, BitSet, KernelHalf, StackApart, Follows;
    hide Enterable, Loadable, DescMapped, DescSeen, Loaded, IsKernelCode, Down, TableServes, AllMatch, NoneTwice;
    hide Isolated;
    ghost var mem, mp, t, r := cpu.Memory(), cpu.m.CurrentMapping(), cpu.Tables(), cpu.Registers();
    ReadyEnters(mem, mp, pt, t, h, r, intr_no);
    HalfKept(mem, mp, pt, t, r);
    ReadyKept(mem, mp, pt, t, h, r);
    cpu.RaiseThroughTable(intr_no, h);
  }

  /**
   * `do_intr` of the processor's loop, without interference: with interrupts on, the highest pending request of the
   * devices enters the handler that its line was given, with interrupts off, and the others are forgotten.
   */
  method DoIntr(pic: Pic.I8259, cpu: Processor, ghost pt: nat, ghost h: Handlers) returns (taken: bool)
    requires pic.Valid() && cpu.m.Valid() && Ready(cpu.Memory(), cpu.m.CurrentMapping(), pt, cpu.Tables(), h)
    requires StackApart(cpu.Memory(), cpu.m.CurrentMapping(), pt, cpu.Tables(), cpu.esp)
    modifies pic, cpu`eip, cpu`cs, cpu`code, cpu`eflags, cpu`esp, cpu.m.pm.cache, cpu.m.pm.hw_mem
    ensures pic.Valid() && (taken <==> old(pic.raised) != {} && BitSet(old(cpu.eflags), 9))
    ensures !taken ==> pic.raised == old(pic.raised) && cpu.Registers() == old(cpu.Registers())
    ensures taken ==> pic.raised == {} && exists r ::
      && r in old(pic.raised) && (forall q | q in old(pic.raised) :: q <= r)
      && (r == 0 ==> cpu.eip == h.irq0) && (r == 1 ==> cpu.eip == h.irq1) && (r == 2 ==> cpu.eip == h.irq2)
      && (r == 14 ==> cpu.eip == h.irq14) && (r in {0, 1, 2, 14} ==> !BitSet(cpu.eflags, 9))
      && (r !in {0, 1, 2, 14, 96} ==> cpu.eip == h.irq_empty)
  {
    hide FrameInMemory, Ready, StackApart, Follows, IsKernelCode, HandlerOf, AllMatch, NoneTwice, BitSet, InterruptsOn;
    InterruptsOnIsBit9(cpu.eflags);
    var intr_no;
    taken, intr_no := pic.DoIntr(InterruptsOn(cpu.eflags));
    if taken {
      HandlersOf(cpu.Memory(), cpu.m.CurrentMapping(), pt, cpu.Tables(), h);
      TakeInterrupt(cpu, intr_no, pt, h);
      assert intr_no - 32 in old(pic.raised);
    }
  }

  lemma HandlersOf(mem: seq<byte>, m: Mapping, pt: nat, t: TableRegs, h: Handlers)
    requires Ready(mem, m, pt, t, h)
    ensures |h.vec| == 15 && HandlerOf(h, 32) == h.irq0 && HandlerOf(h, 33) == h.irq1 && HandlerOf(h, 34) == h.irq2
    ensures HandlerOf(h, 46) == h.irq14
    ensures forall n: nat | 15 <= n && n !in {32, 33, 34, 46, 128} :: HandlerOf(h, n) == h.irq_empty
  {
    HandlersByVector(h);
  }

  /** There and back: a handler that leaves the stack as it found it returns to the interrupted registers. */
  method TakeAndReturn(cpu: Processor, intr_no: byte, ghost pt: nat, ghost h: Handlers)
    requires cpu.m.Valid() && Ready(cpu.Memory(), cpu.m.CurrentMapping(), pt, cpu.Tables(), h)
    requires StackApart(cpu.Memory(), cpu.m.CurrentMapping(), pt, cpu.Tables(), cpu.esp)
    modifies cpu`eip, cpu`cs, cpu`code, cpu`eflags, cpu`esp, cpu.m.pm.cache, cpu.m.pm.hw_mem
    ensures cpu.m.Valid() && Ready(cpu.Memory(), cpu.m.CurrentMapping(), pt, cpu.Tables(), h)
    ensures cpu.Registers() == old(cpu.Registers())
    ensures Follows(old(cpu.Memory()), cpu.Memory(), cpu.m.CurrentMapping(), Frame12(cpu.esp))
  {
    hide FrameInMemory, Mapped, Word, ByteAt, Down, BitSet, HandlerOf, Ready, StackApart, Follows;
    hide MasksInterrupts, AllMatch, NoneTwice, IsKernelCode;
    ghost var mem0, mp, r := cpu.Memory(), cpu.m.CurrentMapping(), cpu.Registers();
    DownSteps(cpu.esp);
    TakeInterrupt(cpu, intr_no, pt, h);
    FrameMapped(mem0, cpu.Memory(), mp, cpu.esp);
    FramePopped(cpu.Memory(), mp, cpu.esp, r);
    cpu.Iret();
  }

  lemma FrameMapped(mem: seq<byte>, mem': seq<byte>, m: Mapping, a: uint32)
    requires Follows(mem, mem', m, Range(a, 12))
    ensures Mapped(mem', m, a, 4) && Mapped(mem', m, ByteAt(a, 4), 4) && Mapped(mem', m, ByteAt(a, 8), 4)
  {
    hide Isolated, Range, Mapped, ByteAt;
    var ls := Range(a, 12);
    assert ByteAt(a, 0) == a by { NoStep(a); }
    SubRange(a, 0, 4, 12);
    SubRange(a, 4, 4, 12);
    SubRange(a, 8, 4, 12);
    RangeMapped(mem', m, ls, a, 4);
    RangeMapped(mem', m, ls, ByteAt(a, 4), 4);
    RangeMapped(mem', m, ls, ByteAt(a, 8), 4);
  }

  // ---------- stacks in kernel memory ----------

  /** Twelve bytes of kernel stack below `esp`, clear of page tables and descriptor tables. */
  predicate StackFits(d: nat, pt: nat, t: TableRegs, esp: uint32) {
    && esp >= 12 && Block(d, pt, esp - 12, 12)
    && Disjoint(esp - 12, 12, t.idtr_base, IDT_SIZE) && Disjoint(esp - 12, 12, t.gdtr_base, GDT_SIZE)
  }

  /** The descriptor tables lie in kernel memory, clear of the page tables. */
  predicate TablesFit(d: nat, pt: nat, t: TableRegs) {
    Block(d, pt, t.idtr_base, IDT_SIZE) && Block(d, pt, t.gdtr_base, GDT_SIZE)
  }

  lemma PartOfBlock(d: nat, pt: nat, va: nat, n: nat, part: nat, k: nat)
    requires Block(d, pt, va, n) && va <= part && part + k <= va + n
    ensures Block(d, pt, part, k)
  {
  }

  lemma SegmentAddress(d: nat, pt: nat, base: uint32)
    requires Block(d, pt, base, GDT_SIZE)
    ensures DescAt(base, KERNEL_CODE_SELECTOR) == base + 8
  {
  }

  lemma FrameAddress(esp: uint32)
    requires esp >= 12
    ensures Down(esp, 12) == esp - 12
  {
  }

  /** Such stacks are apart: kernel memory is translated one to one. */
  lemma KernelStackApart(mem: seq<byte>, d: nat, pt: nat, t: TableRegs, esp: uint32)
    requires KernelHalf(mem, d, pt) && TablesFit(d, pt, t) && StackFits(d, pt, t, esp)
    ensures StackApart(mem, Paged(d), pt, t, esp)
    ensures forall l | l in Frame12(esp) :: Place(mem, Paged(d), l) == l - KOFFSET && esp - 12 <= l < esp
  {
    hide KernelHalf, Isolated, Range, Reaches, Place, Down, DescAt;
    var frame, code := esp - 12, t.gdtr_base + 8;
    FrameAddress(esp);
    SegmentAddress(d, pt, t.gdtr_base);
    PartOfBlock(d, pt, t.gdtr_base, GDT_SIZE, code, 8);
    BlockRange(d, pt, frame, 12);
    BlockRange(d, pt, t.idtr_base, IDT_SIZE);
    BlockRange(d, pt, code, 8);
    BlocksApart(d, pt, frame, 12, t.idtr_base, IDT_SIZE);
    BlocksApart(d, pt, frame, 12, code, 8);
    KernelIsolated(mem, d, pt, Frame12(esp) + Descriptors(t));
  }

  /** On them an interrupt changes the twelve bytes of the frame only. */
  lemma OnlyTheFrame(mem: seq<byte>, mem': seq<byte>, d: nat, pt: nat, t: TableRegs, esp: uint32)
    requires KernelHalf(mem, d, pt) && TablesFit(d, pt, t) && StackFits(d, pt, t, esp)
    requires Follows(mem, mem', Paged(d), Frame12(esp))
    ensures SameOutside(mem, mem', esp - 12 - KOFFSET, esp - KOFFSET, 0, 0)
  {
    hide KernelHalf, Isolated, Frame12, Place, Reaches, StackApart;
    KernelStackApart(mem, d, pt, t, esp);
  }

  // ---------- booting ----------

  lemma KernelHasHalf(mem: seq<byte>, pd: nat, pt: nat)
    requires KernelTables(mem, pd, pt)
    ensures KernelHalf(mem, pd, pt)
  {
    hide Slot, MakeEntry, Frames;
    forall t | 0 <= t < NR_TABLES
      ensures Slot(mem, pd, KERNEL_PDE + t) == MakeEntry(pt + t * 0x1000)
    {
      assert Slot(mem, pd, KERNEL_PDE + t) == DirectoryEntry(pt, NR_TABLES, KERNEL_PDE + t);
    }
  }

  /** Mapping the screen leaves the user directory its kernel half. */
  lemma UserHasHalf(mem: seq<byte>, mem': seq<byte>, ud: nat, pd: nat, pt: nat)
    requires KernelTables(mem, pd, pt) && KernelTables(mem', pd, pt) && SharesKernelHalf(mem, ud, pd, NR_TABLES)
    requires SameOutside(mem, mem', ud, ud + 4, 0x280, 0x2c0) && ud % 0x1000 == 0 && 0x1000 <= ud
    ensures KernelHalf(mem', ud, pt)
  {
    hide Slot, MakeEntry, Frames, SameOutside;
    forall t | 0 <= t < NR_TABLES
      ensures Slot(mem', ud, KERNEL_PDE + t) == MakeEntry(pt + t * 0x1000)
    {
      var k := KERNEL_PDE + t;
      SameSlot(mem, mem', ud, k, ud, ud + 4, 0x280, 0x2c0);
      assert Slot(mem, ud, k) == Slot(mem, pd, k) == DirectoryEntry(pt, NR_TABLES, k);
    }
  }

  /** `init_segment` and `lgdt`. */
  method BuildGdt(k: Kernel, cpu: Processor, base: uint32)
    requires k.Linked() && k.m.Valid() && k.KernelRuns(k.Memory()) && Placed(k, base, GDT_SIZE) && cpu.m == k.m
    modifies cpu`gdtr_base, cpu`gdtr_limit, k.m.pm.cache, k.m.pm.hw_mem
    ensures k.m.Valid() && k.KernelRuns(k.Memory()) && cpu.gdtr_base == base && cpu.gdtr_limit == GDT_SIZE - 1
    ensures TableImage(k.Memory(), base - KOFFSET, SegmentWords(KernelSegments()))
  {
    hide TableImage, KernelTables, AllMatch, NoneTwice, SameOutside, KernelSegments, Acceptable, IsKernelCode;
    var gdt := new SegDesc[NR_SEGMENTS](_ => NO_SEGMENT);
    InitSegment(gdt);
    StoreTable(k, SegmentWords(gdt[..]), base);
    cpu.gdtr_base, cpu.gdtr_limit := base, GDT_SIZE - 1;
  }

  /** `init_idt` and `lidt`: from here on interrupts are on, and the kernel can take them. */
  method BuildIdt(k: Kernel, cpu: Processor, h: Handlers, base: uint32) returns (ghost g: seq<GateDesc>)
    requires k.Linked() && k.m.Valid() && k.KernelRuns(k.Memory()) && Placed(k, base, IDT_SIZE) && cpu.m == k.m
    requires |h.vec| == 15 && Placed(k, cpu.gdtr_base, GDT_SIZE) && Disjoint(cpu.gdtr_base, GDT_SIZE, base, IDT_SIZE)
    requires TableImage(k.Memory(), cpu.gdtr_base - KOFFSET, SegmentWords(KernelSegments()))
    requires cpu.gdtr_limit == GDT_SIZE - 1
    modifies cpu`idtr_base, k.m.pm.cache, k.m.pm.hw_mem
    ensures k.m.Valid() && k.KernelRuns(k.Memory()) && cpu.idtr_base == base
    ensures |g| == NR_IRQ && (forall n | 0 <= n < NR_IRQ :: Serves(g[n], h, n))
    ensures TableImage(k.Memory(), base - KOFFSET, GateWords(g))
    ensures TableImage(k.Memory(), cpu.gdtr_base - KOFFSET, SegmentWords(KernelSegments()))
    ensures Ready(k.Memory(), k.m.CurrentMapping(), k.VaToPa(k.kptable), cpu.Tables(), h)
  {
    hide Serves, TableImage, KernelTables, KernelHalf, TableServes, SegmentServes, AllMatch, NoneTwice, SameOutside;
    hide KernelSegments;
    ghost var mem0, pd, pt := k.Memory(), k.VaToPa(k.kpdir), k.VaToPa(k.kptable);
    var idt := new GateDesc[NR_IRQ](_ => GateDesc(0, 0, 0, 0, 0, 0, 0, 0));
    InitIdt(idt, h);
    g := idt[..];
    StoreTable(k, GateWords(idt[..]), base);
    cpu.idtr_base := base;
    ghost var pa := base - KOFFSET;
    ImageKept(mem0, k.Memory(), cpu.gdtr_base - KOFFSET, SegmentWords(KernelSegments()), pa, pa + IDT_SIZE, 0, 0);
    KernelHasHalf(k.Memory(), pd, pt);
    ImageServes(k.Memory(), pd, pt, base, g, h);
    SegmentImageServes(k.Memory(), pd, pt, cpu.gdtr_base);
  }

  /**
   * The boot order: page tables, segments, gate table, user directory, screen, and the switch to the user's
   * directory. Under that directory too, interrupts reach the handlers of the table.
   */
  method Boot(k: Kernel, cpu: Processor, h: Handlers, gdt: uint32, idt: uint32)
    requires k.Linked() && k.m.Valid() && k.m.pe && !k.m.pg && cpu.m == k.m && |h.vec| == 15
    requires Placed(k, gdt, GDT_SIZE) && Placed(k, idt, IDT_SIZE) && Disjoint(gdt, GDT_SIZE, idt, IDT_SIZE)
    modifies k.m, k`ucr3, cpu`idtr_base, cpu`gdtr_base, cpu`gdtr_limit, k.m.pm.cache, k.m.pm.hw_mem
    ensures k.m.Valid() && k.m.CurrentMapping() == Paged(k.VaToPa(k.updir))
    ensures cpu.Tables() == TableRegs(idt, gdt, GDT_SIZE - 1)
    ensures KernelTables(k.Memory(), k.VaToPa(k.kpdir), k.VaToPa(k.kptable))
    ensures Ready(k.Memory(), k.m.CurrentMapping(), k.VaToPa(k.kptable), cpu.Tables(), h)
    ensures TablesFit(k.VaToPa(k.updir), k.VaToPa(k.kptable), cpu.Tables())
  {
    hide Serves, TableImage, KernelTables, AllMatch, NoneTwice, KernelHalf, TableServes, SegmentServes, SameOutside;
    hide SharesKernelHalf, Walk, Slot, ThroughFrameZero, FrameZeroUnused, KernelMap, UserMap, VideoFrames;
    hide KernelSegments;
    ghost var pd, pt, ud := k.VaToPa(k.kpdir), k.VaToPa(k.kptable), k.VaToPa(k.updir);
    ghost var ws, ga, ia := SegmentWords(KernelSegments()), gdt - KOFFSET, idt - KOFFSET;
    k.InitPage();
    BuildGdt(k, cpu, gdt);
    ghost var g := BuildIdt(k, cpu, h, idt);
    ghost var mem1 := k.Memory();
    k.InitMm();
    ghost var mem2 := k.Memory();
    k.CreateVideoMapping();
    k.m.page_directory_base := k.ucr3 / 0x1000;
    DivMod(ud, 0x1000);
    TablesStay(mem1, mem2, k.Memory(), ga, ws, ud);
    TablesStay(mem1, mem2, k.Memory(), ia, GateWords(g), ud);
    UserHasHalf(mem2, k.Memory(), ud, pd, pt);
    ImageServes(k.Memory(), ud, pt, idt, g, h);
    SegmentImageServes(k.Memory(), ud, pt, gdt);
  }

  lemma TablesStay(mem: seq<byte>, mem': seq<byte>, mem'': seq<byte>, pa: nat, ws: seq<Words>, ud: nat)
    requires TableImage(mem, pa, ws) && SameOutside(mem, mem', ud, ud + 0x1000, 0, 0)
    requires SameOutside(mem', mem'', ud, ud + 4, 0x280, 0x2c0)
    requires Disjoint(pa, 8 * |ws|, ud, 0x1000) && 0x1000 <= pa
    ensures TableImage(mem'', pa, ws)
  {
    ImageKept(mem, mem', pa, ws, ud, ud + 0x1000, 0, 0);
    ImageKept(mem', mem'', pa, ws, ud, ud + 4, 0x280, 0x2c0);
  }

  /** After booting, a kernel stack is all that an interrupt needs. */
  method BootAndTake(k: Kernel, cpu: Processor, h: Handlers, gdt: uint32, idt: uint32, esp: uint32, intr_no: byte)
    requires k.Linked() && k.m.Valid() && k.m.pe && !k.m.pg && cpu.m == k.m && |h.vec| == 15
    requires Placed(k, gdt, GDT_SIZE) && Placed(k, idt, IDT_SIZE) && Disjoint(gdt, GDT_SIZE, idt, IDT_SIZE)
    requires StackFits(k.VaToPa(k.updir), k.VaToPa(k.kptable), TableRegs(idt, gdt, GDT_SIZE - 1), esp)
    modifies k.m, k`ucr3, cpu, k.m.pm.cache, k.m.pm.hw_mem
    ensures cpu.eip == HandlerOf(h, intr_no) && cpu.cs == KERNEL_CODE_SELECTOR && cpu.esp == esp - 12
    ensures IsKernelCode(cpu.code)
    ensures FrameInMemory(cpu.Memory(), cpu.m.CurrentMapping(), cpu.esp, old(cpu.Registers()).(esp := esp))
  {
    hide KernelTables, AllMatch, NoneTwice, KernelHalf, TableServes, SegmentServes, TablesFit, StackFits, StackApart;
    hide FrameInMemory, BitSet, HandlerOf, IsKernelCode, Follows;
    Boot(k, cpu, h, gdt, idt);
    cpu.esp := esp;
    KernelStackApart(k.Memory(), k.VaToPa(k.updir), k.VaToPa(k.kptable), cpu.Tables(), esp);
    StackFitsAddress(k.VaToPa(k.updir), k.VaToPa(k.kptable), cpu.Tables(), esp);
    TakeInterrupt(cpu, intr_no, k.VaToPa(k.kptable), h);
  }

  lemma StackFitsAddress(d: nat, pt: nat, t: TableRegs, esp: uint32)
    requires StackFits(d, pt, t, esp)
    ensures Down(esp, 12) == esp - 12
  {
  }
}
