/** The guest kernel's page tables, built by stores that the emulator itself translates. */
module KernelPaging {
  import opened Powers
  import opened Bytes
  import opened Cache
  import opened Paging

  const KOFFSET := 0xC000_0000
  const PHY_MEM := 0x800_0000     // 128 MB
  const PT_SIZE := 0x40_0000
  const NR_PDE := 0x400
  const NR_PTE := 0x400
  const KERNEL_PDE := 0x300       // KOFFSET / PT_SIZE
  const NR_TABLES := 0x20         // PHY_MEM / PT_SIZE
  const VMEM_ADDR := 0xa0000
  const SCR_SIZE := 64000

  /** `make_pde` and `make_pte`: a present, writable entry for the page of `addr`. */
  function MakeEntry(addr: nat): (e: uint32)
    requires addr < LINEAR
  {
    addr / 0x1000 * 0x1000 + 7
  }

  lemma EntryNamesFrame(addr: nat)
    requires addr < LINEAR && addr % 0x1000 == 0
    ensures Present(MakeEntry(addr)) && Frame(MakeEntry(addr)) == addr
  {
    var q := addr / 0x1000;
    DivMod(addr, 0x1000);
    DivUnique(addr + 7, 0x1000, q, 7);
    DivUnique(addr + 7, 2, q * 0x800 + 3, 1);
  }

  // ---------- tables in memory ----------

  /** Entry `k` of the table at `base`. */
  function Slot(mem: seq<byte>, base: nat, k: nat): uint32
    requires base + 4 * k + 4 <= |mem|
  {
    Dword(mem, base + 4 * k)
  }

  lemma PokeSlot(mem: seq<byte>, pa: nat, v: uint32, base: nat, k: nat)
    requires pa % 4 == 0 && base % 4 == 0 && pa + 4 <= |mem| && base + 4 * k + 4 <= |mem|
    ensures Slot(Store(mem, pa, Split(v, 4)), base, k) == if base + 4 * k == pa then v else Slot(mem, base, k)
  {
    hide Split, Store;
    if base + 4 * k == pa {
      DwordStored(mem, pa, v);
    }
  }

  /** A directory whose first `n` entries, and the `n` from the kernel's on, name the tables at `pt`. */
  function DirectoryEntry(pt: nat, n: nat, k: nat): uint32
    requires pt < MEM_SIZE_B && n <= NR_TABLES
  {
    if k < n then MakeEntry(pt + k * 0x1000)
    else if KERNEL_PDE <= k < KERNEL_PDE + n then MakeEntry(pt + (k - KERNEL_PDE) * 0x1000)
    else 0
  }

  ghost predicate Directory(mem: seq<byte>, pd: nat, pt: nat, n: nat) {
    && pd + 0x1000 <= |mem| && pt < MEM_SIZE_B && n <= NR_TABLES
    && forall k | 0 <= k < NR_PDE :: Slot(mem, pd, k) == DirectoryEntry(pt, n, k)
  }

  /** The first `n` frames of memory, in order. */
  ghost predicate Frames(mem: seq<byte>, pt: nat, n: nat) {
    && n <= 0x8000 && pt + 4 * n <= |mem|
    && forall j | 0 <= j < n :: Slot(mem, pt, j) == MakeEntry(j * 0x1000)
  }

  ghost predicate KernelTables(mem: seq<byte>, pd: nat, pt: nat) {
    && |mem| == MEM_SIZE_B && pd % 0x1000 == 0 && pt % 0x1000 == 0 && pt + 0x20000 <= |mem|
    && Directory(mem, pd, pt, NR_TABLES) && Frames(mem, pt, 0x8000)
  }

  /** What the kernel's linear addresses mean. */
  function KernelMap(va: nat): Option<nat> {
    if va < PHY_MEM then Some(va)
    else if KOFFSET <= va < KOFFSET + PHY_MEM then Some(va - KOFFSET)
    else None
  }

  function UserMap(va: nat): Option<nat> {
    if KOFFSET <= va < KOFFSET + PHY_MEM then Some(va - KOFFSET) else None
  }

  /** Table entries and page numbers: the walk through the tables at `pt`. */
  lemma WalkThrough(mem: seq<byte>, pd: nat, pt: nat, va: nat, t: nat)
    requires va < LINEAR && pd + 0x1000 <= |mem| && |mem| == MEM_SIZE_B
    requires pt % 0x1000 == 0 && pt + 0x20000 <= |mem| && Frames(mem, pt, 0x8000) && t < NR_TABLES
    requires Slot(mem, pd, va / PT_SIZE) == MakeEntry(pt + t * 0x1000)
    ensures Walk(mem, pd, va) == Some(t * PT_SIZE + va % PT_SIZE)
  {
    hide Frame, MakeEntry, Dword, Present, Frames;
    var page, table := va / PAGE_SIZE, pt + t * 0x1000;
    PageNumbers(va);
    var j := t * 0x400 + page % 0x400;
    FrameNumber(pt, t);
    EntryNamesFrame(table);
    FrameNumber(0, j);
    EntryNamesFrame(j * 0x1000);
    FramesAt(mem, pt, 0x8000, j);
    assert Entry(mem, pd + page / 0x400 * 4) == Some(MakeEntry(table));
    assert Entry(mem, table + page % 0x400 * 4) == Some(MakeEntry(j * 0x1000));
  }

  lemma FrameNumber(a: nat, t: nat)
    requires a % 0x1000 == 0
    ensures (a + t * 0x1000) % 0x1000 == 0
  {
    DivMod(a, 0x1000);
    DivUnique(a + t * 0x1000, 0x1000, a / 0x1000 + t, 0);
  }

  lemma FramesAt(mem: seq<byte>, pt: nat, n: nat, j: nat)
    requires Frames(mem, pt, n) && j < n
    ensures Slot(mem, pt, j) == MakeEntry(j * 0x1000)
  {
  }

  lemma PageNumbers(va: nat)
    requires va < LINEAR
    ensures va / PAGE_SIZE / 0x400 == va / PT_SIZE < 0x400
    ensures va % PT_SIZE == va / PAGE_SIZE % 0x400 * 0x1000 + va % PAGE_SIZE
  {
    var page := va / 0x1000;
    DivMod(va, 0x1000);
    DivMod(page, 0x400);
    DivUnique(va, 0x40_0000, page / 0x400, page % 0x400 * 0x1000 + va % 0x1000);
  }

  lemma WalkAbsent(mem: seq<byte>, pd: nat, va: nat)
    requires va < LINEAR && pd + 0x1000 <= |mem| && Slot(mem, pd, va / PT_SIZE) == 0
    ensures Walk(mem, pd, va) == None
  {
    PageNumbers(va);
  }

  lemma Quotient(va: nat, lo: nat, hi: nat)
    ensures lo * PT_SIZE <= va < hi * PT_SIZE <==> lo <= va / PT_SIZE < hi
    ensures va == va / PT_SIZE * PT_SIZE + va % PT_SIZE
  {
    DivMod(va, PT_SIZE);
  }

  /** The kernel directory maps low and high addresses onto memory, and nothing else. */
  lemma KernelWalk(mem: seq<byte>, pd: nat, pt: nat, va: nat)
    requires KernelTables(mem, pd, pt) && va < LINEAR
    ensures Walk(mem, pd, va) == KernelMap(va)
    ensures Walk(mem, pd, va) ==
      if va < 0x800_0000 then Some(va)
      else if 0xC000_0000 <= va < 0xC800_0000 then Some(va - 0xC000_0000)
      else None
  {
    hide Walk, Slot, MakeEntry, Frames;
    var k := va / PT_SIZE;
    Quotient(va, 0, NR_TABLES);
    Quotient(va, KERNEL_PDE, KERNEL_PDE + NR_TABLES);
    Quotient(va, 0, NR_PDE);
    assert Slot(mem, pd, k) == DirectoryEntry(pt, NR_TABLES, k);
    if k < NR_TABLES {
      WalkThrough(mem, pd, pt, va, k);
    } else if KERNEL_PDE <= k < KERNEL_PDE + NR_TABLES {
      WalkThrough(mem, pd, pt, va, k - KERNEL_PDE);
    } else {
      WalkAbsent(mem, pd, va);
    }
  }

  /** The entries themselves: present, writable and open to the user, each naming its table or frame. */
  lemma KernelEntries(mem: seq<byte>, pd: nat, pt: nat, k: nat)
    requires KernelTables(mem, pd, pt)
    ensures k < 32 ==>
      Dword(mem, pd + 4 * k) == pt + k * 0x1000 + 7 && Dword(mem, pd + 4 * (768 + k)) == pt + k * 0x1000 + 7
    ensures 32 <= k < 768 || 800 <= k < 1024 ==> Dword(mem, pd + 4 * k) == 0
    ensures k < 0x8000 ==> Dword(mem, pt + 4 * k) == k * 0x1000 + 7
  {
    hide MakeEntry, Dword;
    if k < 32 {
      assert Slot(mem, pd, k) == DirectoryEntry(pt, NR_TABLES, k);
      assert Slot(mem, pd, 768 + k) == DirectoryEntry(pt, NR_TABLES, 768 + k);
      FrameNumber(pt, k);
      EntryIs(pt + k * 0x1000);
    }
    if 32 <= k < 768 || 800 <= k < 1024 {
      assert Slot(mem, pd, k) == DirectoryEntry(pt, NR_TABLES, k);
    }
    if k < 0x8000 {
      assert Slot(mem, pt, k) == MakeEntry(k * 0x1000);
      FrameNumber(0, k);
      EntryIs(k * 0x1000);
    }
  }

  lemma EntryIs(addr: nat)
    requires addr < LINEAR && addr % 0x1000 == 0
    ensures MakeEntry(addr) == addr + 7
  {
    DivMod(addr, 0x1000);
  }

  /** A user directory with the first `n` kernel entries copied and nothing else. */
  ghost predicate SharesKernelHalf(mem: seq<byte>, ud: nat, pd: nat, n: nat) {
    && ud + 0x1000 <= |mem| && pd + 0x1000 <= |mem|
    && forall k | 0 <= k < NR_PDE ::
      Slot(mem, ud, k) == if KERNEL_PDE <= k < KERNEL_PDE + n then Slot(mem, pd, k) else 0
  }

  lemma UserWalk(mem: seq<byte>, ud: nat, pd: nat, pt: nat, va: nat)
    requires KernelTables(mem, pd, pt) && ud + 0x1000 <= |mem| && va < LINEAR
    requires var k := va / PT_SIZE;
      Slot(mem, ud, k) == if KERNEL_PDE <= k < KERNEL_PDE + NR_TABLES then Slot(mem, pd, k) else 0
    ensures Walk(mem, ud, va) == UserMap(va)
    ensures Walk(mem, ud, va) == if 0xC000_0000 <= va < 0xC800_0000 then Some(va - 0xC000_0000) else None
  {
    hide Walk, Slot, MakeEntry, Frames;
    var k := va / PT_SIZE;
    Quotient(va, KERNEL_PDE, KERNEL_PDE + NR_TABLES);
    Quotient(va, 0, NR_PDE);
    assert Slot(mem, pd, k) == DirectoryEntry(pt, NR_TABLES, k);
    if KERNEL_PDE <= k < KERNEL_PDE + NR_TABLES {
      WalkThrough(mem, ud, pt, va, k - KERNEL_PDE);
    } else {
      WalkAbsent(mem, ud, va);
    }
  }

  /** The sixteen entries of the page table at frame 0 that map the screen, the first `n` of them. */
  ghost predicate VideoFrames(mem: seq<byte>, n: nat) {
    && 0x2c0 <= |mem| && n <= 0x10
    && forall k | 0xa0 <= k < 0xa0 + n :: Slot(mem, 0, k) == MakeEntry(k * 0x1000)
  }

  /** Where an address below 4 MB leads when frame 0 is taken for a page table. */
  function ThroughFrameZero(mem: seq<byte>, va: nat): Option<nat>
    requires va < PT_SIZE && 0x1000 <= |mem|
  {
    assert va / PAGE_SIZE < 0x400;
    var e := Slot(mem, 0, va / PAGE_SIZE);
    if Present(e) then Some(Frame(e) + va % PAGE_SIZE) else None
  }

  /** Addresses below 4 MB that are not on one of the sixteen pages from the screen's on. */
  predicate LowButNotScreen(va: nat) {
    va < PT_SIZE && !(0xa0 <= va / PAGE_SIZE < 0xb0)
  }

  /** Frame 0 holds no present entry besides those for the screen. */
  ghost predicate FrameZeroUnused(mem: seq<byte>)
    requires 0x1000 <= |mem|
  {
    forall k | 0 <= k < 0x400 && !(0xa0 <= k < 0xb0) :: !Present(Slot(mem, 0, k))
  }

  /** Nothing but the screen is mapped in the low 4 MB exactly if frame 0 held nothing else. */
  lemma OnlyTheScreen(mem: seq<byte>)
    requires 0x1000 <= |mem|
    ensures (forall va: nat | LowButNotScreen(va) :: ThroughFrameZero(mem, va) == None) <==> FrameZeroUnused(mem)
  {
    hide Slot, Present, Frame;
    if FrameZeroUnused(mem) {
      forall va: nat | LowButNotScreen(va)
        ensures ThroughFrameZero(mem, va) == None
      {
        assert 0 <= va / PAGE_SIZE < 0x400;
      }
    } else {
      var k :| 0 <= k < 0x400 && !(0xa0 <= k < 0xb0) && Present(Slot(mem, 0, k));
      var va := k * 0x1000;
      DivUnique(va, 0x1000, k, 0);
      assert LowButNotScreen(va) && ThroughFrameZero(mem, va) != None;
    }
  }

  /**
   * An ELF image at the start of memory, where a machine without a disk gets its program: the first eight bytes of
   * a 32-bit file are two present entries, so the first page is mapped far outside memory, and the second to 64 KB.
   */
  lemma ElfImageIsMapped(mem: seq<byte>)
    requires 0x1000 <= |mem| && mem[..8] == [0x7f, 0x45, 0x4c, 0x46, 1, 1, 1, 0]
    ensures !FrameZeroUnused(mem) && LowButNotScreen(0) && LowButNotScreen(0x1000)
    ensures ThroughFrameZero(mem, 0) == Some(0x464c_4000) && ThroughFrameZero(mem, 0x1000) == Some(0x1_0000)
  {
    var b := mem[..8];
    assert mem[0] == b[0] && mem[1] == b[1] && mem[2] == b[2] && mem[3] == b[3];
    assert mem[4] == b[4] && mem[5] == b[5] && mem[6] == b[6] && mem[7] == b[7];
    assert Slot(mem, 0, 0) == 0x464c_457f && Slot(mem, 0, 1) == 0x0001_0101;
  }

  /** Frame 0 serves as the page table of the low 4 MB: every entry it happens to hold counts. */
  lemma LowWalk(mem: seq<byte>, ud: nat, va: nat)
    requires va < PT_SIZE && ud + 0x1000 <= |mem| && 0x1000 <= |mem| && Slot(mem, ud, 0) == 7
    ensures Walk(mem, ud, va) == ThroughFrameZero(mem, va)
  {
    PageNumbers(va);
    assert va / PT_SIZE == 0;
    assert Entry(mem, ud + va / PAGE_SIZE / 0x400 * 4) == Some(7);
    assert Entry(mem, va / PAGE_SIZE * 4) == Some(Slot(mem, 0, va / PAGE_SIZE));
  }

  lemma VideoWalk(mem: seq<byte>, ud: nat, va: nat)
    requires ud + 0x1000 <= |mem| && 0x1000 <= |mem| && Slot(mem, ud, 0) == 7 && VideoFrames(mem, 0x10)
    requires VMEM_ADDR <= va < VMEM_ADDR + 0x10000
    ensures Walk(mem, ud, va) == Some(va)
  {
    hide Slot, MakeEntry, Present, Frame, Walk;
    var page := va / PAGE_SIZE;
    DivMod(va, PAGE_SIZE);
    assert 0xa0 <= page < 0xb0;
    assert Slot(mem, 0, page) == MakeEntry(page * 0x1000);
    FrameNumber(0, page);
    EntryNamesFrame(page * 0x1000);
    LowWalk(mem, ud, va);
  }

  /** The walk of `va` consults neither the first directory entry nor the screen's table entries. */
  ghost predicate Undisturbed(mem: seq<byte>, ud: nat, va: nat) {
    forall a | 0x280 <= a < 0x2c0 || ud <= a < ud + 4 :: !Consults(mem, Paged(ud), va, a)
  }

  // ---------- filling tables ----------

  lemma DirectoryStep(mem: seq<byte>, pd: nat, pt: nat, n: nat)
    requires Directory(mem, pd, pt, n) && n < NR_TABLES && pd % 0x1000 == 0 && pt % 0x1000 == 0
    requires |mem| == MEM_SIZE_B && pt + 0x20000 <= |mem|
    ensures var e := MakeEntry(pt + n * 0x1000);
      var once := Store(mem, pd + 4 * n, Split(e, 4));
      Directory(Store(once, pd + 4 * (n + KERNEL_PDE), Split(e, 4)), pd, pt, n + 1)
  {
    hide Slot, MakeEntry, Split, Store;
    Aligned(pd, n);
    Aligned(pd, n + KERNEL_PDE);
    var e := MakeEntry(pt + n * 0x1000);
    var once := Store(mem, pd + 4 * n, Split(e, 4));
    var twice := Store(once, pd + 4 * (n + KERNEL_PDE), Split(e, 4));
    forall k | 0 <= k < NR_PDE
      ensures Slot(twice, pd, k) == DirectoryEntry(pt, n + 1, k)
    {
      PokeSlot(mem, pd + 4 * n, e, pd, k);
      PokeSlot(once, pd + 4 * (n + KERNEL_PDE), e, pd, k);
      assert Slot(mem, pd, k) == DirectoryEntry(pt, n, k);
    }
  }

  lemma FramesStep(mem: seq<byte>, pt: nat, n: nat)
    requires Frames(mem, pt, n) && n < 0x8000 && pt % 0x1000 == 0 && pt + 0x20000 <= |mem|
    ensures Frames(Store(mem, pt + 4 * n, Split(MakeEntry(n * 0x1000), 4)), pt, n + 1)
  {
    hide Slot, MakeEntry, Split, Store;
    Aligned(pt, n);
    var mem' := Store(mem, pt + 4 * n, Split(MakeEntry(n * 0x1000), 4));
    forall j | 0 <= j < n + 1
      ensures Slot(mem', pt, j) == MakeEntry(j * 0x1000)
    {
      PokeSlot(mem, pt + 4 * n, MakeEntry(n * 0x1000), pt, j);
    }
  }

  lemma Aligned(base: nat, k: nat)
    requires base % 0x1000 == 0
    ensures base % 4 == 0 && (base + 4 * k) % 4 == 0
  {
    DivMod(base, 0x1000);
    DivUnique(base, 4, base / 0x1000 * 0x400, 0);
    DivUnique(base + 4 * k, 4, base / 0x1000 * 0x400 + k, 0);
  }

  /** A store elsewhere leaves a table alone. */
  lemma DirectoryKept(mem: seq<byte>, pd: nat, pt: nat, n: nat, pa: nat, v: uint32)
    requires Directory(mem, pd, pt, n) && pd % 0x1000 == 0 && pa % 4 == 0 && pa + 4 <= |mem|
    requires pa + 4 <= pd || pd + 0x1000 <= pa
    ensures Directory(Store(mem, pa, Split(v, 4)), pd, pt, n)
  {
    hide Slot, MakeEntry, Split, Store;
    Aligned(pd, 0);
    var mem' := Store(mem, pa, Split(v, 4));
    forall k | 0 <= k < NR_PDE
      ensures Slot(mem', pd, k) == Slot(mem, pd, k)
    {
      PokeSlot(mem, pa, v, pd, k);
    }
  }

  lemma FramesKept(mem: seq<byte>, pt: nat, n: nat, pa: nat, v: uint32)
    requires Frames(mem, pt, n) && pt % 0x1000 == 0 && pa % 4 == 0 && pa + 4 <= |mem|
    requires pa + 4 <= pt || pt + 4 * n <= pa
    ensures Frames(Store(mem, pa, Split(v, 4)), pt, n)
  {
    hide Slot, MakeEntry, Split, Store;
    Aligned(pt, 0);
    var mem' := Store(mem, pa, Split(v, 4));
    forall j | 0 <= j < n
      ensures Slot(mem', pt, j) == Slot(mem, pt, j)
    {
      PokeSlot(mem, pa, v, pt, j);
    }
  }

  lemma TablesKept(mem: seq<byte>, pd: nat, pt: nat, pa: nat, v: uint32)
    requires KernelTables(mem, pd, pt) && pa % 4 == 0 && pa + 4 <= |mem|
    requires (pa + 4 <= pd || pd + 0x1000 <= pa) && (pa + 4 <= pt || pt + 0x20000 <= pa)
    ensures KernelTables(Store(mem, pa, Split(v, 4)), pd, pt)
  {
    hide Directory, Frames, Store, Split;
    DirectoryKept(mem, pd, pt, NR_TABLES, pa, v);
    FramesKept(mem, pt, 0x8000, pa, v);
  }

  /** Bytes outside two ranges are the same. */
  ghost predicate SameOutside(mem: seq<byte>, mem': seq<byte>, lo: nat, hi: nat, lo': nat, hi': nat) {
    |mem'| == |mem| && forall a | 0 <= a < |mem| && !(lo <= a < hi) && !(lo' <= a < hi') :: mem'[a] == mem[a]
  }

  lemma SameAfterStore(mem0: seq<byte>, mem: seq<byte>, pa: nat, v: uint32, lo: nat, hi: nat, lo': nat, hi': nat)
    requires SameOutside(mem0, mem, lo, hi, lo', hi') && pa + 4 <= |mem|
    requires (lo <= pa && pa + 4 <= hi) || (lo' <= pa && pa + 4 <= hi')
    ensures SameOutside(mem0, Store(mem, pa, Split(v, 4)), lo, hi, lo', hi')
  {
    hide Split;
  }

  lemma SameSlot(mem: seq<byte>, mem': seq<byte>, base: nat, k: nat, lo: nat, hi: nat, lo': nat, hi': nat)
    requires SameOutside(mem, mem', lo, hi, lo', hi') && base + 4 * k + 4 <= |mem|
    requires base + 4 * k + 4 <= lo || hi <= base + 4 * k
    requires base + 4 * k + 4 <= lo' || hi' <= base + 4 * k
    ensures Slot(mem', base, k) == Slot(mem, base, k)
  {
  }

  lemma SameThroughFrameZero(mem: seq<byte>, mem': seq<byte>, va: nat, lo: nat, hi: nat, lo': nat, hi': nat)
    requires SameOutside(mem, mem', lo, hi, lo', hi') && 0x1000 <= |mem| && va < PT_SIZE && 0x1000 <= lo
    requires 0x1000 <= lo' || lo' >= hi' || (lo' == 0x280 && hi' == 0x2c0 && LowButNotScreen(va))
    ensures ThroughFrameZero(mem', va) == ThroughFrameZero(mem, va)
  {
    var k := va / PAGE_SIZE;
    assert k < 0x400;
    hide SameOutside, Slot;
    if lo' < hi' {
      SameSlot(mem, mem', 0, k, lo, hi, lo', hi');
    } else {
      OneRange(mem, mem', lo, hi, lo', hi');
      SameSlot(mem, mem', 0, k, lo, hi, lo, hi);
    }
  }

  lemma OneRange(mem: seq<byte>, mem': seq<byte>, lo: nat, hi: nat, lo': nat, hi': nat)
    requires SameOutside(mem, mem', lo, hi, lo', hi') && lo' >= hi'
    ensures SameOutside(mem, mem', lo, hi, lo, hi)
  {
  }

  lemma SharesStep(mem: seq<byte>, ud: nat, pd: nat, n: nat)
    requires SharesKernelHalf(mem, ud, pd, n) && n < NR_TABLES && ud % 0x1000 == 0 && pd % 0x1000 == 0
    requires ud + 0x1000 <= pd || pd + 0x1000 <= ud
    ensures SharesKernelHalf(Store(mem, ud + 4 * (KERNEL_PDE + n), Split(Slot(mem, pd, KERNEL_PDE + n), 4)), ud,
        pd, n + 1)
  {
    hide Slot, Split, Store;
    Aligned(ud, KERNEL_PDE + n);
    Aligned(pd, 0);
    var pa, v := ud + 4 * (KERNEL_PDE + n), Slot(mem, pd, KERNEL_PDE + n);
    var mem' := Store(mem, pa, Split(v, 4));
    forall k | 0 <= k < NR_PDE
      ensures Slot(mem', ud, k) == if KERNEL_PDE <= k < KERNEL_PDE + n + 1 then Slot(mem', pd, k) else 0
    {
      PokeSlot(mem, pa, v, ud, k);
      PokeSlot(mem, pa, v, pd, k);
    }
  }

  lemma VideoStep(mem: seq<byte>, n: nat)
    requires VideoFrames(mem, n) && n < 0x10
    ensures VideoFrames(Store(mem, 0x280 + 4 * n, Split(MakeEntry((0xa0 + n) * 0x1000), 4)), n + 1)
  {
    hide Slot, MakeEntry, Split, Store;
    var pa, v := 0x280 + 4 * n, MakeEntry((0xa0 + n) * 0x1000);
    var mem' := Store(mem, pa, Split(v, 4));
    forall k | 0xa0 <= k < 0xa0 + n + 1
      ensures Slot(mem', 0, k) == MakeEntry(k * 0x1000)
    {
      PokeSlot(mem, pa, v, 0, k);
    }
  }

  /** The first `n` entries are zero. */
  ghost predicate Zeroed(mem: seq<byte>, base: nat, n: nat) {
    base + 4 * n <= |mem| && forall k | 0 <= k < n :: Slot(mem, base, k) == 0
  }

  lemma ZeroedStep(mem: seq<byte>, base: nat, n: nat)
    requires Zeroed(mem, base, n) && base % 0x1000 == 0 && base + 4 * n + 4 <= |mem|
    ensures Zeroed(Store(mem, base + 4 * n, Split(0, 4)), base, n + 1)
  {
    hide Slot, Split, Store;
    Aligned(base, n);
    var mem' := Store(mem, base + 4 * n, Split(0, 4));
    forall k | 0 <= k < n + 1
      ensures Slot(mem', base, k) == 0
    {
      PokeSlot(mem, base + 4 * n, 0, base, k);
    }
  }

  /** An aligned double word lies in one page, so it is one run of memory. */
  lemma AlignedRun(mem: seq<byte>, m: Mapping, va: nat, pa: nat)
    requires va % 4 == 0 && va + 4 <= LINEAR && |mem| == MEM_SIZE_B && pa + 4 <= |mem|
    requires Translate(mem, m, va) == Some(pa)
    ensures Mapped(mem, m, va, 4) && IsRun(mem, Places(mem, m, va, 4), pa)
  {
    hide Walk, Places, IsRun, ByteAt;
    AlignedInPage(va);
    forall i | 0 <= i < 4
      ensures Reaches(mem, m, ByteAt(va, i))
    {
      WithinPage(va, i);
      if m.Paged? {
        WalkWithinPage(mem, m.pdbr, va, i);
      }
    }
    if m.Paged? {
      PageRun(mem, m.pdbr, va, 4, pa);
    } else {
      DirectRun(mem, va, 4);
    }
  }

  lemma AlignedInPage(va: nat)
    requires va % 4 == 0
    ensures va % PAGE_SIZE + 4 <= PAGE_SIZE
  {
    var q, r := va / 0x1000, va % 0x1000;
    DivMod(va, 4);
    DivMod(va, 0x1000);
    assert r == 4 * (va / 4 - q * 0x400);
  }

  // ---------- the kernel's code ----------

  class Kernel {
    const m: Mmu
    // the linker's addresses of the three statically allocated tables
    const kpdir: nat
    const kptable: nat
    const updir: nat
    var ucr3: nat

    constructor (machine: Mmu, kernelDirectory: nat, kernelTables: nat, userDirectory: nat)
      ensures m == machine && kpdir == kernelDirectory && kptable == kernelTables && updir == userDirectory
    {
      m, kpdir, kptable, updir := machine, kernelDirectory, kernelTables, userDirectory;
      ucr3 := 0;
    }

    /** Page-aligned, apart from each other, inside memory above its first page. */
    predicate Linked() {
      && kpdir % 0x1000 == 0 && kptable % 0x1000 == 0 && updir % 0x1000 == 0
      && KOFFSET + 0x1000 <= kpdir && kpdir + 0x1000 <= KOFFSET + PHY_MEM
      && KOFFSET + 0x1000 <= kptable && kptable + 0x20000 <= KOFFSET + PHY_MEM
      && KOFFSET + 0x1000 <= updir && updir + 0x1000 <= KOFFSET + PHY_MEM
      && (kpdir + 0x1000 <= kptable || kptable + 0x20000 <= kpdir)
      && (kpdir + 0x1000 <= updir || updir + 0x1000 <= kpdir)
      && (kptable + 0x20000 <= updir || updir + 0x1000 <= kptable)
    }

    function VaToPa(va: nat): nat
      requires va >= KOFFSET
    {
      va - KOFFSET
    }

    ghost function Memory(): seq<byte>
      reads m.pm, m.pm.hw_mem
    {
      m.pm.hw_mem[..]
    }

    /** A store by kernel code, translated by the emulator. */
    method Poke(va: nat, v: uint32, ghost pa: nat)
      requires m.Valid() && va % 4 == 0 && va + 4 <= LINEAR && pa + 4 <= MEM_SIZE_B
      requires Translate(Memory(), m.CurrentMapping(), va) == Some(pa)
      modifies m.pm.cache, m.pm.hw_mem
      ensures m.Valid() && Memory() == Store(old(Memory()), pa, Split(v, 4))
    {
      hide Translate, Places, Split, Scatter, IsRun, AllMatch, NoneTwice;
      ghost var mem, mp := Memory(), m.CurrentMapping();
      AlignedRun(mem, mp, va, pa);
      ScatterRun(mem, Places(mem, mp, va, 4), Split(v, 4), pa);
      m.LaddrWrite(va, 4, v);
    }

    method Peek(va: nat, ghost pa: nat) returns (v: uint32)
      requires m.Valid() && va % 4 == 0 && va + 4 <= LINEAR && pa + 4 <= MEM_SIZE_B
      requires Translate(Memory(), m.CurrentMapping(), va) == Some(pa)
      modifies m.pm.cache
      ensures m.Valid() && v == Dword(Memory(), pa)
    {
      hide Translate, Places, Gather, IsRun, AllMatch, NoneTwice, LE, Dword;
      ghost var mem, mp := Memory(), m.CurrentMapping();
      AlignedRun(mem, mp, va, pa);
      GatherRun(mem, Places(mem, mp, va, 4), pa);
      DwordIsLE(mem, pa);
      v := m.LaddrRead(va, 4);
    }

    /** Kernel code runs untranslated at first, and through its own tables from then on. */
    ghost predicate KernelRuns(mem: seq<byte>)
      requires Linked()
      reads m
    {
      m.CurrentMapping() == Paged(VaToPa(kpdir)) && KernelTables(mem, VaToPa(kpdir), VaToPa(kptable))
    }

    /** Neither the kernel directory nor a kernel table meets the `n` entries at `pa`. */
    ghost predicate OffKernelTables(pa: nat, n: nat)
      requires Linked()
    {
      && (pa + 4 * n <= VaToPa(kpdir) || VaToPa(kpdir) + 0x1000 <= pa)
      && (pa + 4 * n <= VaToPa(kptable) || VaToPa(kptable) + 0x20000 <= pa)
    }

    /** `memset` of `n` table entries to zero. */
    method Clear(va: nat, n: nat, ghost pa: nat)
      requires Linked() && m.Valid() && va % 0x1000 == 0 && pa % 0x1000 == 0
      requires pa + 4 * n <= MEM_SIZE_B
      requires
        || (m.CurrentMapping() == Direct && va == pa)
        || (KernelRuns(Memory()) && va == pa + KOFFSET && OffKernelTables(pa, n))
      modifies m.pm.cache, m.pm.hw_mem
      ensures m.Valid() && Zeroed(Memory(), pa, n)
      ensures m.CurrentMapping() != Direct ==> KernelRuns(Memory())
      ensures SameOutside(old(Memory()), Memory(), pa, pa + 4 * n, 0, 0)
    {
      hide Slot, Split, Walk, KernelTables, AllMatch, NoneTwice;
      ghost var mem0 := Memory();
      var i := 0;
      while i < n
        invariant i <= n && m.Valid() && Zeroed(Memory(), pa, i)
        invariant m.CurrentMapping() != Direct ==> KernelRuns(Memory())
        invariant SameOutside(mem0, Memory(), pa, pa + 4 * n, 0, 0)
      {
        ghost var mem := Memory();
        Aligned(va, i);
        Aligned(pa, i);
        ZeroedStep(mem, pa, i);
        SameAfterStore(mem0, mem, pa + 4 * i, 0, pa, pa + 4 * n, 0, 0);
        if m.CurrentMapping() != Direct {
          KernelWalk(mem, VaToPa(kpdir), VaToPa(kptable), va + 4 * i);
          TablesKept(mem, VaToPa(kpdir), VaToPa(kptable), pa + 4 * i, 0);
        }
        Poke(va + 4 * i, 0, pa + 4 * i);
        i := i + 1;
      }
    }

    /** `init_page`: after it the kernel's linear addresses mean what `KernelMap` says. */
    method InitPage()
      requires Linked() && m.Valid() && m.pe && !m.pg
      modifies m, m.pm.cache, m.pm.hw_mem
      ensures m.Valid() && KernelRuns(Memory())
      ensures forall va | 0 <= va < LINEAR :: Translate(Memory(), m.CurrentMapping(), va) == KernelMap(va)
      ensures SameOutside(old(Memory()), Memory(), VaToPa(kpdir), VaToPa(kpdir) + 0x1000, VaToPa(kptable),
          VaToPa(kptable) + 0x20000)
    {
      hide Slot, Split, Store, Walk, AllMatch, NoneTwice, Frames, Directory, MakeEntry, SameOutside;
      var pdir, ptable := VaToPa(kpdir), VaToPa(kptable);
      ghost var mem0, pt := Memory(), ptable;
      Clear(pdir, NR_PDE, pdir);
      NothingMapped(mem0, Memory(), pdir, pt);

      var pframe_idx := 0;
      var pdir_idx := 0;
      while pdir_idx < PHY_MEM / PT_SIZE
        invariant pdir_idx <= NR_TABLES && pframe_idx == pdir_idx * NR_PTE && ptable == pt + 4 * pframe_idx
        invariant m.Valid() && m.pe && m.CurrentMapping() == Direct
        invariant Directory(Memory(), pdir, pt, pdir_idx) && Frames(Memory(), pt, pframe_idx)
        invariant SameOutside(mem0, Memory(), pdir, pdir + 0x1000, pt, pt + 0x20000)
      {
        StoreDirectoryEntries(pdir, pdir_idx, ptable, mem0, pt, pframe_idx);
        var ptable_idx := 0;
        while ptable_idx < NR_PTE
          invariant ptable_idx <= NR_PTE && pframe_idx == pdir_idx * NR_PTE + ptable_idx
              && ptable == pt + 4 * pframe_idx
          invariant m.Valid() && m.pe && m.CurrentMapping() == Direct
          invariant Directory(Memory(), pdir, pt, pdir_idx + 1) && Frames(Memory(), pt, pframe_idx)
          invariant SameOutside(mem0, Memory(), pdir, pdir + 0x1000, pt, pt + 0x20000)
        {
          ghost var mem := Memory();
          var e := MakeEntry(pframe_idx * 0x1000);
          Aligned(pt, pframe_idx);
          FramesStep(mem, pt, pframe_idx);
          DirectoryKept(mem, pdir, pt, pdir_idx + 1, ptable, e);
          SameAfterStore(mem0, mem, ptable, e, pdir, pdir + 0x1000, pt, pt + 0x20000);
          Poke(ptable, e, ptable);
          pframe_idx := pframe_idx + 1;
          ptable := ptable + 4;
          ptable_idx := ptable_idx + 1;
        }
        pdir_idx := pdir_idx + 1;
      }

      m.page_directory_base := pdir / 0x1000;
      m.pg := true;
      DivMod(pdir, 0x1000);
      assert m.CurrentMapping() == Paged(pdir);
      forall va | 0 <= va < LINEAR
        ensures Translate(Memory(), m.CurrentMapping(), va) == KernelMap(va)
      {
        KernelWalk(Memory(), pdir, pt, va);
      }
    }

    /** The two directory entries that name one page table: low half and kernel half. */
    method StoreDirectoryEntries(pdir: nat, pdir_idx: nat, ptable: nat, ghost mem0: seq<byte>, ghost pt: nat,
        ghost n: nat)
      requires Linked() && m.Valid() && m.CurrentMapping() == Direct
      requires pdir == VaToPa(kpdir) && pt == VaToPa(kptable) && pdir_idx < NR_TABLES
          && ptable == pt + pdir_idx * 0x1000
      requires Directory(Memory(), pdir, pt, pdir_idx) && n <= 0x8000 && Frames(Memory(), pt, n)
      requires SameOutside(mem0, Memory(), pdir, pdir + 0x1000, pt, pt + 0x20000)
      modifies m.pm.cache, m.pm.hw_mem
      ensures m.Valid() && Directory(Memory(), pdir, pt, pdir_idx + 1) && Frames(Memory(), pt, n)
      ensures SameOutside(mem0, Memory(), pdir, pdir + 0x1000, pt, pt + 0x20000)
    {
      hide Slot, Split, Store, AllMatch, NoneTwice, Frames, Directory, MakeEntry, SameOutside;
      ghost var mem := Memory();
      var e := MakeEntry(ptable);
      var hi := pdir_idx + KOFFSET / PT_SIZE;
      Aligned(pdir, pdir_idx);
      Aligned(pdir, hi);
      DirectoryStep(mem, pdir, pt, pdir_idx);
      FramesKept(mem, pt, n, pdir + 4 * pdir_idx, e);
      SameAfterStore(mem0, mem, pdir + 4 * pdir_idx, e, pdir, pdir + 0x1000, pt, pt + 0x20000);
      Poke(pdir + 4 * pdir_idx, e, pdir + 4 * pdir_idx);
      ghost var once := Memory();
      FramesKept(once, pt, n, pdir + 4 * hi, e);
      SameAfterStore(mem0, once, pdir + 4 * hi, e, pdir, pdir + 0x1000, pt, pt + 0x20000);
      Poke(pdir + 4 * hi, e, pdir + 4 * hi);
    }

    /** `init_mm`: the user directory shares the kernel half and maps nothing else. */
    method InitMm()
      requires Linked() && m.Valid() && KernelRuns(Memory())
      modifies m.pm.cache, m.pm.hw_mem, `ucr3
      ensures m.Valid() && KernelRuns(Memory()) && ucr3 == VaToPa(updir)
      ensures SharesKernelHalf(Memory(), ucr3, VaToPa(kpdir), NR_TABLES)
      ensures forall va | 0 <= va < LINEAR :: Walk(Memory(), ucr3, va) == UserMap(va)
      ensures SameOutside(old(Memory()), Memory(), VaToPa(updir), VaToPa(updir) + 0x1000, 0, 0)
    {
      hide Slot, Split, Store, Walk, AllMatch, NoneTwice, KernelTables, SameOutside;
      ghost var mem0, pd, pt, ud := Memory(), VaToPa(kpdir), VaToPa(kptable), VaToPa(updir);
      Clear(updir, NR_PDE, ud);
      NothingShared(Memory(), ud, pd);
      var i := 0;
      while i < PHY_MEM / PT_SIZE
        invariant i <= NR_TABLES && m.Valid() && KernelRuns(Memory())
        invariant SharesKernelHalf(Memory(), ud, pd, i)
        invariant SameOutside(mem0, Memory(), ud, ud + 0x1000, 0, 0)
      {
        CopyEntry(KOFFSET / PT_SIZE + i, mem0);
        i := i + 1;
      }
      ucr3 := VaToPa(updir) / 0x400 * 0x400;
      DivMod(ud, 0x1000);
      DivUnique(ud, 0x400, ud / 0x1000 * 4, 0);
      forall va | 0 <= va < LINEAR
        ensures Walk(Memory(), ucr3, va) == UserMap(va)
      {
        assert 0 <= va / PT_SIZE < NR_PDE by { PageNumbers(va); }
        UserWalk(Memory(), ud, pd, pt, va);
      }
    }

    /** `updir[k] = kpdir[k]`, one word of the `memcpy`. */
    method CopyEntry(k: nat, ghost mem0: seq<byte>)
      requires Linked() && m.Valid() && KernelRuns(Memory()) && KERNEL_PDE <= k < KERNEL_PDE + NR_TABLES
      requires SharesKernelHalf(Memory(), VaToPa(updir), VaToPa(kpdir), k - KERNEL_PDE)
      requires SameOutside(mem0, Memory(), VaToPa(updir), VaToPa(updir) + 0x1000, 0, 0)
      modifies m.pm.cache, m.pm.hw_mem
      ensures m.Valid() && KernelRuns(Memory())
      ensures SharesKernelHalf(Memory(), VaToPa(updir), VaToPa(kpdir), k - KERNEL_PDE + 1)
      ensures SameOutside(mem0, Memory(), VaToPa(updir), VaToPa(updir) + 0x1000, 0, 0)
    {
      hide Split, Store, Walk, AllMatch, NoneTwice, KernelTables, SameOutside, SharesKernelHalf, Dword;
      ghost var mem, pd, pt, ud := Memory(), VaToPa(kpdir), VaToPa(kptable), VaToPa(updir);
      Aligned(kpdir, k);
      Aligned(updir, k);
      Aligned(ud, k);
      KernelWalk(mem, pd, pt, kpdir + 4 * k);
      KernelWalk(mem, pd, pt, updir + 4 * k);
      var v := Peek(kpdir + 4 * k, pd + 4 * k);
      assert Memory() == mem;
      assert v == Slot(mem, pd, k);
      SharesStep(mem, ud, pd, k - KERNEL_PDE);
      TablesKept(mem, pd, pt, ud + 4 * k, v);
      SameAfterStore(mem0, mem, ud + 4 * k, v, ud, ud + 0x1000, 0, 0);
      Poke(updir + 4 * k, v, ud + 4 * k);
    }

    /** `create_video_mapping`: the user sees the screen at its own address; other translations stay. */
    method CreateVideoMapping()
      requires Linked() && m.Valid() && KernelRuns(Memory())
      modifies m.pm.cache, m.pm.hw_mem
      ensures m.Valid() && KernelRuns(Memory())
      ensures SameOutside(old(Memory()), Memory(), VaToPa(updir), VaToPa(updir) + 4, 0x280, 0x2c0)
      ensures Slot(Memory(), VaToPa(updir), 0) == 7 && VideoFrames(Memory(), 0x10)
      ensures forall va | 0xa_0000 <= va < 0xa_0000 + 320 * 200 :: Walk(Memory(), VaToPa(updir), va) == Some(va)
      ensures forall va: nat | LowButNotScreen(va) ::
        Walk(Memory(), VaToPa(updir), va) == ThroughFrameZero(old(Memory()), va)
      ensures (forall va: nat | LowButNotScreen(va) :: Walk(Memory(), VaToPa(updir), va) == None)
         <==> FrameZeroUnused(old(Memory()))
      ensures forall va | 0 <= va < LINEAR && Undisturbed(old(Memory()), VaToPa(updir), va) ::
        Walk(Memory(), VaToPa(updir), va) == Walk(old(Memory()), VaToPa(updir), va)
    {
      hide Split, Store, Walk, AllMatch, NoneTwice, KernelTables, SameOutside, Dword;
      ghost var mem0, pd, pt, ud := Memory(), VaToPa(kpdir), VaToPa(kptable), VaToPa(updir);
      var frame_idx := VMEM_ADDR / PAGE_SIZE;
      FillFirstEntry();
      KernelWalk(Memory(), pd, pt, updir);
      var pde := Peek(updir, ud);
      var ptable := pde / 0x1000 * 0x1000 + frame_idx * 4;
      assert pde == 7 && ptable == 0x280;
      var table_idx := 0;
      while table_idx < SCR_SIZE / PAGE_SIZE + 1
        invariant table_idx <= 0x10 && frame_idx == 0xa0 + table_idx && ptable == 0x280 + 4 * table_idx
        invariant m.Valid() && KernelRuns(Memory()) && VideoFrames(Memory(), table_idx)
        invariant Slot(Memory(), ud, 0) == 7
        invariant SameOutside(mem0, Memory(), ud, ud + 4, 0x280, 0x2c0)
      {
        ghost var mem := Memory();
        var e := MakeEntry(frame_idx * 0x1000);
        KernelWalk(mem, pd, pt, ptable);
        VideoStep(mem, table_idx);
        TablesKept(mem, pd, pt, ptable, e);
        Aligned(ud, 0);
        PokeSlot(mem, ptable, e, ud, 0);
        SameAfterStore(mem0, mem, ptable, e, ud, ud + 4, 0x280, 0x2c0);
        Poke(ptable, e, ptable);
        frame_idx := frame_idx + 1;
        ptable := ptable + 4;
        table_idx := table_idx + 1;
      }
      forall va | VMEM_ADDR <= va < VMEM_ADDR + SCR_SIZE
        ensures Walk(Memory(), ud, va) == Some(va)
      {
        VideoWalk(Memory(), ud, va);
      }
      forall va: nat | LowButNotScreen(va)
        ensures Walk(Memory(), ud, va) == ThroughFrameZero(mem0, va)
      {
        LowWalk(Memory(), ud, va);
        SameThroughFrameZero(mem0, Memory(), va, ud, ud + 4, 0x280, 0x2c0);
      }
      OnlyTheScreen(mem0);
      forall va | 0 <= va < LINEAR && Undisturbed(mem0, ud, va)
        ensures Walk(Memory(), ud, va) == Walk(mem0, ud, va)
      {
        WalkSurvives(mem0, Memory(), ud, va);
      }
    }

    /** The three set-ups in boot order: what kernel and user mean by an address afterwards. */
    method SetUpAll()
      requires Linked() && m.Valid() && m.pe && !m.pg
      modifies m, m.pm.cache, m.pm.hw_mem, `ucr3
      ensures m.Valid() && ucr3 == VaToPa(updir)
      ensures forall va | 0 <= va < LINEAR :: Translate(Memory(), m.CurrentMapping(), va) == KernelMap(va)
      ensures forall va | PT_SIZE <= va < LINEAR :: Walk(Memory(), ucr3, va) == UserMap(va)
      ensures forall va | 0xa_0000 <= va < 0xa_0000 + 320 * 200 :: Walk(Memory(), ucr3, va) == Some(va)
      ensures forall va: nat | LowButNotScreen(va) :: Walk(Memory(), ucr3, va) == ThroughFrameZero(old(Memory()), va)
      ensures (forall va: nat | LowButNotScreen(va) :: Walk(Memory(), ucr3, va) == None)
         <==> FrameZeroUnused(old(Memory()))
    {
      hide Slot, Walk, AllMatch, NoneTwice, SameOutside, ThroughFrameZero, FrameZeroUnused;
      hide KernelMap, UserMap, SharesKernelHalf, Directory, Frames, VideoFrames;
      ghost var mem0 := Memory();
      ghost var pd, pt, ud := VaToPa(kpdir), VaToPa(kptable), VaToPa(updir);
      InitPage();
      ghost var mem1 := Memory();
      InitMm();
      ghost var mem := Memory();
      CreateVideoMapping();
      FrameZeroKept(mem0, mem1, pd, pd + 0x1000, pt, pt + 0x20000);
      FrameZeroKept(mem1, mem, ud, ud + 0x1000, 0, 0);
      OnlyTheScreen(mem0);
      AllKernelWalks(Memory(), pd, pt);
      UpperWalksKept(mem, Memory(), ud, pd, pt);
    }

    /** The first entry of the user directory: cleared, then made from its own zero frame number. */
    method FillFirstEntry()
      requires Linked() && m.Valid() && KernelRuns(Memory())
      modifies m.pm.cache, m.pm.hw_mem
      ensures m.Valid() && KernelRuns(Memory()) && Slot(Memory(), VaToPa(updir), 0) == 7
      ensures SameOutside(old(Memory()), Memory(), VaToPa(updir), VaToPa(updir) + 4, 0x280, 0x2c0)
    {
      hide Split, Store, Walk, AllMatch, NoneTwice, KernelTables, Dword;
      ghost var mem0, pd, pt, ud := Memory(), VaToPa(kpdir), VaToPa(kptable), VaToPa(updir);
      Clear(updir, 1, ud);
      ghost var mem := Memory();
      Aligned(ud, 0);
      Aligned(updir, 0);
      KernelWalk(mem, pd, pt, updir);
      var pde := Peek(updir, ud);
      assert pde == Slot(mem, ud, 0) == 0;
      var e := MakeEntry(pde / 0x1000);
      TablesKept(mem, pd, pt, ud, e);
      PokeSlot(mem, ud, e, ud, 0);
      SameAfterStore(mem0, mem, ud, e, ud, ud + 4, 0x280, 0x2c0);
      Poke(updir, e, ud);
    }
  }

  lemma NothingMapped(mem0: seq<byte>, mem: seq<byte>, pd: nat, pt: nat)
    requires Zeroed(mem, pd, NR_PDE) && pt < MEM_SIZE_B && SameOutside(mem0, mem, pd, pd + 4 * NR_PDE, 0, 0)
    ensures Directory(mem, pd, pt, 0) && (pt <= |mem| ==> Frames(mem, pt, 0))
    ensures SameOutside(mem0, mem, pd, pd + 0x1000, pt, pt + 0x20000)
  {
    hide Slot;
  }

  lemma FrameZeroKept(mem: seq<byte>, mem': seq<byte>, lo: nat, hi: nat, lo': nat, hi': nat)
    requires SameOutside(mem, mem', lo, hi, lo', hi') && 0x1000 <= |mem|
    requires 0x1000 <= lo && (0x1000 <= lo' || lo' >= hi')
    ensures forall va: nat | LowButNotScreen(va) :: ThroughFrameZero(mem', va) == ThroughFrameZero(mem, va)
  {
    forall va: nat | LowButNotScreen(va)
      ensures ThroughFrameZero(mem', va) == ThroughFrameZero(mem, va)
    {
      SameThroughFrameZero(mem, mem', va, lo, hi, lo', hi');
    }
  }

  lemma AllKernelWalks(mem: seq<byte>, pd: nat, pt: nat)
    requires KernelTables(mem, pd, pt)
    ensures forall va | 0 <= va < LINEAR :: Walk(mem, pd, va) == KernelMap(va)
  {
    forall va | 0 <= va < LINEAR
      ensures Walk(mem, pd, va) == KernelMap(va)
    {
      KernelWalk(mem, pd, pt, va);
    }
  }

  /** Above 4 MB the video mapping leaves the user's translations alone. */
  lemma UpperWalksKept(mem: seq<byte>, mem': seq<byte>, ud: nat, pd: nat, pt: nat)
    requires KernelTables(mem', pd, pt) && SharesKernelHalf(mem, ud, pd, NR_TABLES)
    requires SameOutside(mem, mem', ud, ud + 4, 0x280, 0x2c0) && 0x1000 <= ud && 0x1000 <= pd
    requires pd + 0x1000 <= ud || ud + 4 <= pd
    ensures forall va | PT_SIZE <= va < LINEAR :: Walk(mem', ud, va) == UserMap(va)
  {
    assert |mem'| == |mem|;
    hide Walk, Slot, SameOutside;
    forall va | PT_SIZE <= va < LINEAR
      ensures Walk(mem', ud, va) == UserMap(va)
    {
      var k := va / PT_SIZE;
      PageNumbers(va);
      SameSlot(mem, mem', ud, k, ud, ud + 4, 0x280, 0x2c0);
      SameSlot(mem, mem', pd, k, ud, ud + 4, 0x280, 0x2c0);
      UserWalk(mem', ud, pd, pt, va);
    }
  }

  lemma NothingShared(mem: seq<byte>, ud: nat, pd: nat)
    requires Zeroed(mem, ud, NR_PDE) && pd + 0x1000 <= |mem|
    ensures SharesKernelHalf(mem, ud, pd, 0)
  {
    hide Slot;
  }

  /** Writing the first directory entry and the screen's table entries disturbs no walk that avoids them. */
  lemma WalkSurvives(mem: seq<byte>, mem': seq<byte>, ud: nat, va: nat)
    requires SameOutside(mem, mem', ud, ud + 4, 0x280, 0x2c0) && Undisturbed(mem, ud, va)
    ensures Walk(mem', ud, va) == Walk(mem, ud, va)
  {
    hide Walk, Consults;
    WalkDependsOn(mem, mem', Paged(ud), va);
  }
}
