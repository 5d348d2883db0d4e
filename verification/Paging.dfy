/** Linear memory: the two-level page walk and accesses that may cross a page. */
module Paging {
  import opened Powers
  import opened Bytes
  import opened Cache

  const PAGE_SIZE := 0x1000
  const LINEAR := 0x1_0000_0000   // 2^32

  // ---------- the walk, as a function of the bytes of memory ----------

  /** A double word of memory, if it lies inside. */
  function Entry(mem: seq<byte>, a: nat): Option<uint32> {
    if a + 4 <= |mem| then Some(Dword(mem, a)) else None
  }

  function Frame(entry: uint32): nat { entry / 0x1000 * 0x1000 }

  predicate Present(entry: uint32) { entry % 2 == 1 }

  /** Section 5.2 of the 80386 Programmer's Reference Manual: directory, table, frame. */
  function WalkPage(mem: seq<byte>, pdbr: nat, page: nat): Option<nat> {
    match Entry(mem, pdbr + page / 0x400 * 4)
    case None => None
    case Some(pde) =>
      if !Present(pde) then None
      else
        match Entry(mem, Frame(pde) + page % 0x400 * 4)
        case None => None
        case Some(pte) => if Present(pte) then Some(Frame(pte)) else None
  }

  /** The physical address of a linear one. */
  function Walk(mem: seq<byte>, pdbr: nat, laddr: nat): Option<nat> {
    match WalkPage(mem, pdbr, laddr / PAGE_SIZE)
    case None => None
    case Some(frame) => Some(frame + laddr % PAGE_SIZE)
  }

  /**
   * Section 5.2.4 bit by bit: directory entry table + f1 and table entry frame + f2, table and frame aligned to a
   * page, lead to the frame exactly if both flag fields are odd, whatever their other bits.
   */
  lemma WalkOfEntries(mem: seq<byte>, pdbr: nat, laddr: nat, table: nat, f1: nat, frame: nat, f2: nat)
    requires laddr < 0x1_0000_0000 && table % 0x1000 == 0 && frame % 0x1000 == 0 && f1 < 0x1000 && f2 < 0x1000
    requires pdbr + laddr / 0x40_0000 * 4 + 4 <= |mem| && table + laddr / 0x1000 % 0x400 * 4 + 4 <= |mem|
    requires Dword(mem, pdbr + laddr / 0x40_0000 * 4) == table + f1
    requires Dword(mem, table + laddr / 0x1000 % 0x400 * 4) == frame + f2
    ensures Walk(mem, pdbr, laddr) == if f1 % 2 == 1 && f2 % 2 == 1 then Some(frame + laddr % 0x1000) else None
  {
    hide Dword, Present, Frame;
    EntryBits(table, f1);
    EntryBits(frame, f2);
    var page := laddr / 0x1000;
    DivMod(laddr, 0x1000);
    DivMod(page, 0x400);
    DivUnique(laddr, 0x40_0000, page / 0x400, page % 0x400 * 0x1000 + laddr % 0x1000);
  }

  lemma EntryBits(base: nat, flags: nat)
    requires base % 0x1000 == 0 && flags < 0x1000 && base + flags < 0x1_0000_0000
    ensures Frame(base + flags) == base && (Present(base + flags) <==> flags % 2 == 1)
  {
    DivMod(base, 0x1000);
    DivUnique(base + flags, 0x1000, base / 0x1000, flags);
    DivMod(flags, 2);
    DivUnique(base + flags, 2, base / 0x1000 * 0x800 + flags / 2, flags % 2);
  }

  /** The walk keeps offsets within a page. */
  lemma WalkWithinPage(mem: seq<byte>, pdbr: nat, laddr: nat, k: nat)
    requires laddr % PAGE_SIZE + k < PAGE_SIZE
    ensures (laddr + k) / PAGE_SIZE == laddr / PAGE_SIZE
    ensures Walk(mem, pdbr, laddr).Some? ==>
      Walk(mem, pdbr, laddr + k) == Some(Walk(mem, pdbr, laddr).value + k)
  {
  }

  // ---------- per-byte accesses ----------

  /** How linear addresses reach memory: through the tables, or directly. */
  datatype Mapping = Direct | Paged(pdbr: nat)

  function Translate(mem: seq<byte>, m: Mapping, laddr: nat): Option<nat> {
    match m
    case Direct => Some(laddr)
    case Paged(pdbr) => Walk(mem, pdbr, laddr)
  }

  /** The linear address of byte `i` of an access; linear addresses wrap at 2^32. */
  function ByteAt(laddr: nat, i: nat): (l: nat)
    ensures l < LINEAR
  {
    (laddr + i) % LINEAR
  }

  predicate Reaches(mem: seq<byte>, m: Mapping, l: nat) {
    var p := Translate(mem, m, l); p.Some? && p.value < |mem|
  }

  /** Every byte of the access translates into memory. */
  predicate Mapped(mem: seq<byte>, m: Mapping, laddr: nat, len: nat) {
    forall i | 0 <= i < len :: Reaches(mem, m, ByteAt(laddr, i))
  }

  /** Where the bytes of an access live. */
  function Places(mem: seq<byte>, m: Mapping, laddr: nat, len: nat): (ps: seq<nat>)
    requires Mapped(mem, m, laddr, len)
    ensures |ps| == len
    ensures forall i | 0 <= i < len :: ps[i] < |mem| && Some(ps[i]) == Translate(mem, m, ByteAt(laddr, i))
  {
    if len == 0 then []
    else
      assert Reaches(mem, m, ByteAt(laddr, len - 1));
      Places(mem, m, laddr, len - 1) + [Translate(mem, m, ByteAt(laddr, len - 1)).value]
  }

  /** The bytes at some places. */
  function Gather(mem: seq<byte>, ps: seq<nat>): (bs: seq<byte>)
    requires forall i | 0 <= i < |ps| :: ps[i] < |mem|
    ensures |bs| == |ps| && forall i | 0 <= i < |ps| :: bs[i] == mem[ps[i]]
  {
    seq(|ps|, i requires 0 <= i < |ps| => mem[ps[i]])
  }

  /** Memory after storing bytes at places, in order. */
  function Scatter(mem: seq<byte>, ps: seq<nat>, bs: seq<byte>): (r: seq<byte>)
    requires |ps| == |bs| && forall i | 0 <= i < |ps| :: ps[i] < |mem|
    ensures |r| == |mem|
    decreases |ps|
  {
    if ps == [] then mem
    else Scatter(mem[ps[0] := bs[0]], ps[1..], bs[1..])
  }

  predicate Distinct(ps: seq<nat>) {
    forall i, j | 0 <= i < j < |ps| :: ps[i] != ps[j]
  }

  /** Scattering over distinct places: each place gets its byte, nothing else changes. */
  lemma {:induction false} ScatterAt(mem: seq<byte>, ps: seq<nat>, bs: seq<byte>, a: nat)
    requires |ps| == |bs| && (forall i | 0 <= i < |ps| :: ps[i] < |mem|) && a < |mem|
    ensures a !in ps ==> Scatter(mem, ps, bs)[a] == mem[a]
    ensures Distinct(ps) ==> forall i | 0 <= i < |ps| && ps[i] == a :: Scatter(mem, ps, bs)[a] == bs[i]
    decreases |ps|
  {
    if ps != [] {
      ScatterAt(mem[ps[0] := bs[0]], ps[1..], bs[1..], a);
      assert ps == [ps[0]] + ps[1..];
      if Distinct(ps) {
        forall i | 0 <= i < |ps| && ps[i] == a
          ensures Scatter(mem, ps, bs)[a] == bs[i]
        {
          if i == 0 {
            assert a !in ps[1..];
          } else {
            assert ps[1..][i - 1] == a;
          }
        }
      }
    }
  }

  /** The places `a`, `a + 1`, ... inside memory. */
  predicate IsRun(mem: seq<byte>, ps: seq<nat>, a: nat) {
    a + |ps| <= |mem| && forall i | 0 <= i < |ps| :: ps[i] == a + i
  }

  /** A stretch of consecutive places is a plain store. */
  lemma {:induction false} ScatterRun(mem: seq<byte>, ps: seq<nat>, bs: seq<byte>, a: nat)
    requires |ps| == |bs| && IsRun(mem, ps, a)
    ensures Scatter(mem, ps, bs) == Store(mem, a, bs)
    decreases |ps|
  {
    if ps == [] {
      assert Store(mem, a, bs) == mem;
    } else {
      ScatterRun(mem[ps[0] := bs[0]], ps[1..], bs[1..], a + 1);
      assert Store(mem[a := bs[0]], a + 1, bs[1..]) == Store(mem, a, bs);
    }
  }

  lemma {:induction false} ScatterConcat(mem: seq<byte>, ps: seq<nat>, bs: seq<byte>, qs: seq<nat>, cs: seq<byte>)
    requires |ps| == |bs| && |qs| == |cs|
    requires (forall i | 0 <= i < |ps| :: ps[i] < |mem|) && (forall i | 0 <= i < |qs| :: qs[i] < |mem|)
    ensures Scatter(mem, ps + qs, bs + cs) == Scatter(Scatter(mem, ps, bs), qs, cs)
    decreases |ps|
  {
    if ps == [] {
      assert ps + qs == qs && bs + cs == cs;
    } else {
      ScatterConcat(mem[ps[0] := bs[0]], ps[1..], bs[1..], qs, cs);
      assert (ps + qs)[1..] == ps[1..] + qs && (bs + cs)[1..] == bs[1..] + cs;
    }
  }

  /** A stretch inside one page is consecutive in memory. */
  lemma PageRun(mem: seq<byte>, pdbr: nat, laddr: nat, len: nat, pa: nat)
    requires laddr < LINEAR && laddr % PAGE_SIZE + len <= PAGE_SIZE && len > 0
    requires Mapped(mem, Paged(pdbr), laddr, len) && Walk(mem, pdbr, laddr) == Some(pa)
    ensures IsRun(mem, Places(mem, Paged(pdbr), laddr, len), pa)
  {
    hide Walk, ByteAt;
    forall i | 0 <= i < len
      ensures Translate(mem, Paged(pdbr), ByteAt(laddr, i)) == Some(pa + i)
    {
      WalkWithinPage(mem, pdbr, laddr, i);
      WithinPage(laddr, i);
      assert Reaches(mem, Paged(pdbr), ByteAt(laddr, i));
    }
    assert Reaches(mem, Paged(pdbr), ByteAt(laddr, len - 1));
  }

  lemma WithinPage(laddr: nat, i: nat)
    requires laddr < LINEAR && laddr % PAGE_SIZE + i < PAGE_SIZE
    ensures ByteAt(laddr, i) == laddr + i
  {
    DivMod(laddr, 0x1000);
    assert laddr / 0x1000 < 0x10_0000;
  }

  lemma DirectRun(mem: seq<byte>, laddr: nat, len: nat)
    requires |mem| <= 0x1000_0000 && laddr < LINEAR && 0 < len <= 4 && Mapped(mem, Direct, laddr, len)
    ensures IsRun(mem, Places(mem, Direct, laddr, len), laddr)
  {
    assert Reaches(mem, Direct, ByteAt(laddr, 0));
    assert ByteAt(laddr, 0) == laddr;
    assert Reaches(mem, Direct, ByteAt(laddr, len - 1));
    forall i | 0 <= i < len
      ensures ByteAt(laddr, i) == laddr + i
    {
    }
  }

  lemma ByteAtSplit(laddr: nat, k: nat, i: nat)
    ensures ByteAt(ByteAt(laddr, k), i) == ByteAt(laddr, k + i)
  {
    var a, l := laddr + k, LINEAR;
    DivMod(a, l);
    assert (a + i) % l == (a % l + i + a / l * l) % l;
    ModPlus(a % l + i, a / l, l);
  }

  lemma ModPlus(x: nat, q: nat, l: nat)
    requires l > 0
    ensures (x + q * l) % l == x % l
  {
    DivMod(x, l);
    MulAdd(x / l, q, l);
    DivUnique(x + q * l, l, x / l + q, x % l);
  }

  /** A crossing access is one access up to the page boundary and one from there on. */
  lemma SplitPlaces(mem: seq<byte>, m: Mapping, laddr: nat, k: nat, len: nat)
    requires laddr < LINEAR && k <= len && Mapped(mem, m, laddr, len)
    ensures var next := ByteAt(laddr, k);
      && Mapped(mem, m, laddr, k) && Mapped(mem, m, next, len - k)
      && Places(mem, m, laddr, len) == Places(mem, m, laddr, k) + Places(mem, m, next, len - k)
  {
    hide ByteAt, Reaches, Places;
    var next := ByteAt(laddr, k);
    forall i | 0 <= i < len - k
      ensures ByteAt(next, i) == ByteAt(laddr, k + i) && Reaches(mem, m, ByteAt(next, i))
    {
      ByteAtSplit(laddr, k, i);
      assert Reaches(mem, m, ByteAt(laddr, k + i));
    }
    var ps, qs := Places(mem, m, laddr, k), Places(mem, m, next, len - k);
    forall i | 0 <= i < len
      ensures Places(mem, m, laddr, len)[i] == (ps + qs)[i]
    {
      if i >= k {
        assert ByteAt(next, i - k) == ByteAt(laddr, i);
        assert qs[i - k] == (ps + qs)[i];
      }
    }
  }

  /** Gathering consecutive places reads a slice. */
  lemma GatherRun(mem: seq<byte>, ps: seq<nat>, pa: nat)
    requires IsRun(mem, ps, pa)
    ensures Gather(mem, ps) == mem[pa..pa + |ps|]
  {
  }

  lemma GatherConcat(mem: seq<byte>, ps: seq<nat>, qs: seq<nat>)
    requires (forall i | 0 <= i < |ps| :: ps[i] < |mem|) && (forall i | 0 <= i < |qs| :: qs[i] < |mem|)
    ensures Gather(mem, ps + qs) == Gather(mem, ps) + Gather(mem, qs)
  {
  }

  lemma GatherTwoRuns(mem: seq<byte>, ps: seq<nat>, pa: nat, qs: seq<nat>, pa': nat)
    requires IsRun(mem, ps, pa) && IsRun(mem, qs, pa')
    ensures LE(Gather(mem, ps + qs)) == LE(mem[pa..pa + |ps|]) + Span(|ps|) * LE(mem[pa'..pa' + |qs|])
  {
    hide Gather, LE, Span;
    GatherRun(mem, ps, pa);
    GatherRun(mem, qs, pa');
    GatherConcat(mem, ps, qs);
    LEConcat(mem[pa..pa + |ps|], mem[pa'..pa' + |qs|]);
  }

  /** Written bytes are read back wherever the tables put them, if they put them apart. */
  lemma ReadBack(mem: seq<byte>, ps: seq<nat>, data: nat)
    requires (forall i | 0 <= i < |ps| :: ps[i] < |mem|) && Distinct(ps)
    ensures LE(Gather(Scatter(mem, ps, Split(data, |ps|)), ps)) == data % Span(|ps|)
    ensures forall a | 0 <= a < |mem| && a !in ps :: Scatter(mem, ps, Split(data, |ps|))[a] == mem[a]
  {
    hide Split, LE, Scatter, Span;
    var bs := Split(data, |ps|);
    forall i | 0 <= i < |ps|
      ensures Gather(Scatter(mem, ps, bs), ps)[i] == bs[i]
    {
      ScatterAt(mem, ps, bs, ps[i]);
    }
    assert Gather(Scatter(mem, ps, bs), ps) == bs;
    LESplit(data, |ps|);
    forall a | 0 <= a < |mem| && a !in ps
      ensures Scatter(mem, ps, bs)[a] == mem[a]
    {
      ScatterAt(mem, ps, bs, a);
    }
  }

  /** The bytes of the two entries that the walk of `laddr` looks at. */
  predicate Consults(mem: seq<byte>, m: Mapping, laddr: nat, a: nat) {
    match m
    case Direct => false
    case Paged(pdbr) =>
      var pde_at := pdbr + laddr / PAGE_SIZE / 0x400 * 4;
      || pde_at <= a < pde_at + 4
      || (pde_at + 4 <= |mem| &&
          var pte_at := Frame(Dword(mem, pde_at)) + laddr / PAGE_SIZE % 0x400 * 4;
          pte_at <= a < pte_at + 4)
  }

  /** A translation depends on the consulted bytes only. */
  lemma WalkDependsOn(mem: seq<byte>, mem': seq<byte>, m: Mapping, laddr: nat)
    requires |mem| == |mem'| && forall a | 0 <= a < |mem| && Consults(mem, m, laddr, a) :: mem'[a] == mem[a]
    ensures Translate(mem', m, laddr) == Translate(mem, m, laddr)
  {
    if m.Paged? {
      var pde_at := m.pdbr + laddr / PAGE_SIZE / 0x400 * 4;
      if pde_at + 4 <= |mem| {
        assert Dword(mem', pde_at) == Dword(mem, pde_at);
        var pte_at := Frame(Dword(mem, pde_at)) + laddr / PAGE_SIZE % 0x400 * 4;
        if pte_at + 4 <= |mem| {
          assert Dword(mem', pte_at) == Dword(mem, pte_at);
        }
      }
    }
  }

  /** The access does not write to the entries that translate it. */
  predicate LeavesTables(mem: seq<byte>, m: Mapping, laddr: nat, len: nat)
    requires Mapped(mem, m, laddr, len)
  {
    forall i, a | 0 <= i < len && a in Places(mem, m, laddr, len) :: !Consults(mem, m, ByteAt(laddr, i), a)
  }

  /** A write followed by a read of the same place gives the truncated data. */
  lemma WriteThenRead(mem: seq<byte>, m: Mapping, laddr: nat, len: nat, data: nat)
    requires Mapped(mem, m, laddr, len)
    requires Distinct(Places(mem, m, laddr, len)) && LeavesTables(mem, m, laddr, len)
    ensures var ps := Places(mem, m, laddr, len);
      var mem' := Scatter(mem, ps, Split(data, len));
      && Mapped(mem', m, laddr, len) && Places(mem', m, laddr, len) == ps
      && LE(Gather(mem', Places(mem', m, laddr, len))) == data % Span(len)
      && forall a | 0 <= a < |mem| && a !in ps :: mem'[a] == mem[a]
  {
    hide Consults, Translate, ByteAt, Places, Scatter, Split, LE, Span, Gather;
    var ps := Places(mem, m, laddr, len);
    var mem' := Scatter(mem, ps, Split(data, len));
    ReadBack(mem, ps, data);
    forall i | 0 <= i < len
      ensures Reaches(mem', m, ByteAt(laddr, i)) && Translate(mem', m, ByteAt(laddr, i)) == Some(ps[i])
    {
      WalkDependsOn(mem, mem', m, ByteAt(laddr, i));
    }
    assert Places(mem', m, laddr, len) == ps;
  }

  // ---------- crossing a page ----------

  /** Whether the access touches two pages, computed as the emulator does. */
  predicate Crosses(laddr: nat, len: nat)
    requires len > 0
  {
    laddr / 0x1000 != (laddr + len - 1) % LINEAR / 0x1000
  }

  /** The length of the part before the page boundary. */
  function FirstPart(laddr: nat): nat
    requires laddr < LINEAR
  {
    ((laddr / 0x1000 + 1) * 0x1000 - laddr) % LINEAR
  }

  lemma CrossingArithmetic(laddr: nat, len: nat)
    requires laddr < LINEAR && 0 < len <= 4
    ensures FirstPart(laddr) == PAGE_SIZE - laddr % PAGE_SIZE
    ensures Crosses(laddr, len) <==> laddr % PAGE_SIZE + len > PAGE_SIZE
    ensures Crosses(laddr, len) ==> ByteAt(laddr, FirstPart(laddr)) % PAGE_SIZE == 0
  {
    var page, off := laddr / 0x1000, laddr % 0x1000;
    assert laddr == page * 0x1000 + off && page < 0x10_0000;
  }

  /** The one or two stretches of memory that a paged access touches. */
  lemma AccessRuns(mem: seq<byte>, pdbr: nat, laddr: nat, len: nat)
    requires laddr < LINEAR && 0 < len <= 4 && Mapped(mem, Paged(pdbr), laddr, len)
    ensures Walk(mem, pdbr, laddr).Some?
    ensures !Crosses(laddr, len) ==>
      IsRun(mem, Places(mem, Paged(pdbr), laddr, len), Walk(mem, pdbr, laddr).value)
    ensures Crosses(laddr, len) ==>
      var k, next := FirstPart(laddr), ByteAt(laddr, FirstPart(laddr));
      && 0 < k < len && Walk(mem, pdbr, next).Some?
      && Mapped(mem, Paged(pdbr), laddr, k) && Mapped(mem, Paged(pdbr), next, len - k)
      && Places(mem, Paged(pdbr), laddr, len) == Places(mem, Paged(pdbr), laddr, k) + Places(mem, Paged(pdbr),
          next, len - k)
      && IsRun(mem, Places(mem, Paged(pdbr), laddr, k), Walk(mem, pdbr, laddr).value)
      && IsRun(mem, Places(mem, Paged(pdbr), next, len - k), Walk(mem, pdbr, next).value)
  {
    hide WalkPage, Walk, Places, IsRun, Mapped, ByteAt, Crosses, FirstPart;
    var m := Paged(pdbr);
    CrossingArithmetic(laddr, len);
    FirstReached(mem, pdbr, laddr, len);
    if Crosses(laddr, len) {
      var k := FirstPart(laddr);
      var next := ByteAt(laddr, k);
      SplitPlaces(mem, m, laddr, k, len);
      PageRun(mem, pdbr, laddr, k, Walk(mem, pdbr, laddr).value);
      FirstReached(mem, pdbr, next, len - k);
      PageRun(mem, pdbr, next, len - k, Walk(mem, pdbr, next).value);
    } else {
      PageRun(mem, pdbr, laddr, len, Walk(mem, pdbr, laddr).value);
    }
  }

  lemma FirstReached(mem: seq<byte>, pdbr: nat, laddr: nat, len: nat)
    requires laddr < LINEAR && len > 0 && Mapped(mem, Paged(pdbr), laddr, len)
    ensures Walk(mem, pdbr, laddr).Some?
  {
    hide Walk;
    assert Reaches(mem, Paged(pdbr), ByteAt(laddr, 0));
    assert ByteAt(laddr, 0) == laddr;
  }

  lemma ReadRuns(mem: seq<byte>, pdbr: nat, laddr: nat, len: nat)
    requires laddr < LINEAR && 0 < len <= 4 && Mapped(mem, Paged(pdbr), laddr, len)
    ensures Walk(mem, pdbr, laddr).Some?
    ensures var v := LE(Gather(mem, Places(mem, Paged(pdbr), laddr, len)));
      if !Crosses(laddr, len) then
        var pa := Walk(mem, pdbr, laddr).value;
        pa + len <= |mem| && v == LE(mem[pa..pa + len])
      else
        var k, next := FirstPart(laddr), ByteAt(laddr, FirstPart(laddr));
        && 0 < k < len && Walk(mem, pdbr, next).Some?
        && var pa, pa' := Walk(mem, pdbr, laddr).value, Walk(mem, pdbr, next).value;
        && pa + k <= |mem| && pa' + (len - k) <= |mem|
        && v == LE(mem[pa..pa + k]) + Span(k) * LE(mem[pa'..pa' + (len - k)])
  {
    hide Walk, Crosses, FirstPart, ByteAt, Mapped, Places, Gather, LE, Span;
    AccessRuns(mem, pdbr, laddr, len);
    if Crosses(laddr, len) {
      var k, next := FirstPart(laddr), ByteAt(laddr, FirstPart(laddr));
      var ps, qs := Places(mem, Paged(pdbr), laddr, k), Places(mem, Paged(pdbr), next, len - k);
      GatherTwoRuns(mem, ps, Walk(mem, pdbr, laddr).value, qs, Walk(mem, pdbr, next).value);
    } else {
      GatherRun(mem, Places(mem, Paged(pdbr), laddr, len), Walk(mem, pdbr, laddr).value);
    }
  }

  lemma WriteRuns(mem: seq<byte>, pdbr: nat, laddr: nat, len: nat, data: nat)
    requires laddr < LINEAR && 0 < len <= 4 && Mapped(mem, Paged(pdbr), laddr, len)
    ensures Walk(mem, pdbr, laddr).Some?
    ensures var r := Scatter(mem, Places(mem, Paged(pdbr), laddr, len), Split(data, len));
      if !Crosses(laddr, len) then
        var pa := Walk(mem, pdbr, laddr).value;
        pa + len <= |mem| && r == Store(mem, pa, Split(data, len))
      else
        var k, next := FirstPart(laddr), ByteAt(laddr, FirstPart(laddr));
        && 0 < k < len && Walk(mem, pdbr, next).Some?
        && var pa, pa' := Walk(mem, pdbr, laddr).value, Walk(mem, pdbr, next).value;
        && pa + k <= |mem| && pa' + (len - k) <= |mem|
        && r == Store(Store(mem, pa, Split(data, k)), pa', Split(Drop(data, k), len - k))
  {
    AccessRuns(mem, pdbr, laddr, len);
    hide Walk, Crosses, FirstPart, ByteAt, Mapped, Places, Split;
    if Crosses(laddr, len) {
      var k, next := FirstPart(laddr), ByteAt(laddr, FirstPart(laddr));
      var ps, qs := Places(mem, Paged(pdbr), laddr, k), Places(mem, Paged(pdbr), next, len - k);
      SplitConcat(data, k, len - k);
      assert k + (len - k) == len;
      ScatterConcat(mem, ps, Split(data, k), qs, Split(Drop(data, k), len - k));
      ScatterRun(mem, ps, Split(data, k), Walk(mem, pdbr, laddr).value);
      ScatterRun(Scatter(mem, ps, Split(data, k)), qs, Split(Drop(data, k), len - k), Walk(mem, pdbr, next).value);
    } else {
      ScatterRun(mem, Places(mem, Paged(pdbr), laddr, len), Split(data, len), Walk(mem, pdbr, laddr).value);
    }
  }

  // ---------- the machine ----------

  class Mmu {
    const pm: PhysicalMemory
    var pg: bool
    var pe: bool
    var page_directory_base: nat

    constructor (memory: PhysicalMemory)
      ensures pm == memory && !pg && !pe
    {
      pm, pg, pe, page_directory_base := memory, false, false, 0;
    }

    ghost predicate Valid()
      reads this, pm, pm.hw_mem, pm.cache
    {
      pm.Valid()
    }

    function CurrentMapping(): Mapping
      reads this
    {
      if pg && pe then Paged(page_directory_base * 0x1000) else Direct
    }

    method PaddrRead(paddr: nat, len: nat) returns (ret: nat)
      requires Valid() && 0 < len <= 4 && paddr + len <= MEM_SIZE_B
      modifies pm.cache
      ensures Valid()
      ensures ret == LE(pm.hw_mem[..][paddr..paddr + len])
    {
      ret := pm.CacheRead(paddr, len);
      assert pm.hw_mem[..][paddr..paddr + len] == pm.hw_mem[paddr..paddr + len];
    }

    /** Both levels are read through the cache; a missing page stops the emulator. */
    method PageTranslate(laddr: nat) returns (paddr: nat)
      requires Valid() && laddr < LINEAR
      requires Walk(pm.hw_mem[..], page_directory_base * 0x1000, laddr).Some?
      modifies pm.cache
      ensures Valid()
      ensures Some(paddr) == Walk(pm.hw_mem[..], page_directory_base * 0x1000, laddr)
    {
      var dir := laddr / 0x40_0000;
      var page := laddr / 0x1000 % 0x400;
      var offset := laddr % 0x1000;
      assert laddr / PAGE_SIZE / 0x400 == dir;
      ghost var mem := pm.hw_mem[..];
      var dir_base := page_directory_base * 0x1000;
      var dir_entry := PaddrRead(dir_base + dir * 4, 4);
      assert dir_entry == Dword(mem, dir_base + dir * 4) by {
        DwordIsLE(mem, dir_base + dir * 4);
      }
      var page_base := dir_entry / 0x1000 * 0x1000;
      var page_entry := PaddrRead(page_base + page * 4, 4);
      assert page_entry == Dword(mem, page_base + page * 4) by {
        DwordIsLE(mem, page_base + page * 4);
      }
      paddr := page_entry / 0x1000 * 0x1000 + offset;
    }

    method PaddrWrite(paddr: nat, len: nat, data: nat)
      requires Valid() && 0 < len <= 4 && paddr + len <= MEM_SIZE_B
      modifies pm.cache, pm.hw_mem
      ensures Valid()
      ensures pm.hw_mem[..] == Store(old(pm.hw_mem[..]), paddr, Split(data, len))
    {
      pm.CacheWrite(paddr, len, data);
    }

    /** The crossing branch of a read: both pages are translated before either is read. */
    method ReadAcross(laddr: nat, len1: nat, len2: nat) returns (data: nat)
      requires Valid() && laddr < LINEAR && 0 < len1 && 0 < len2 && len1 + len2 <= 4
      requires var w := Walk(pm.hw_mem[..], page_directory_base * 0x1000, laddr);
        w.Some? && w.value + len1 <= MEM_SIZE_B
      requires var w := Walk(pm.hw_mem[..], page_directory_base * 0x1000, ByteAt(laddr, len1));
        w.Some? && w.value + len2 <= MEM_SIZE_B
      modifies pm.cache
      ensures Valid()
      ensures
        var pa := Walk(pm.hw_mem[..], page_directory_base * 0x1000, laddr).value;
        var pa' := Walk(pm.hw_mem[..], page_directory_base * 0x1000, ByteAt(laddr, len1)).value;
        data == LE(pm.hw_mem[..][pa..pa + len1]) + Span(len1) * LE(pm.hw_mem[..][pa'..pa' + len2])
    {
      hide Walk, ByteAt, LE, Span;
      var paddr1 := PageTranslate(laddr);
      var paddr2 := PageTranslate(ByteAt(laddr, len1));
      var lo := PaddrRead(paddr1, len1);
      var hi := PaddrRead(paddr2, len2);
      // the two parts of the bitwise or have no bit in common
      data := lo + Span(len1) * hi;
    }

    /** An access is the little-endian combination of its bytes, each translated on its own. */
    method LaddrRead(laddr: nat, len: nat) returns (data: nat)
      requires Valid() && laddr < LINEAR && (len == 1 || len == 2 || len == 4)
      requires Mapped(pm.hw_mem[..], CurrentMapping(), laddr, len)
      modifies pm.cache
      ensures Valid()
      ensures data == LE(Gather(pm.hw_mem[..], Places(pm.hw_mem[..], CurrentMapping(), laddr, len)))
    {
      hide Walk, Crosses, FirstPart, ByteAt, Mapped, Places, LE, Span, Gather, AllMatch, NoneTwice;
      ghost var mem, m := pm.hw_mem[..], CurrentMapping();
      ghost var ps := Places(mem, m, laddr, len);
      if pg && pe {
        ReadRuns(mem, page_directory_base * 0x1000, laddr, len);
        if Crosses(laddr, len) {
          var len1 := FirstPart(laddr);
          data := ReadAcross(laddr, len1, len - len1);
        } else {
          var paddr := PageTranslate(laddr);
          data := PaddrRead(paddr, len);
        }
      } else {
        DirectRun(mem, laddr, len);
        GatherRun(mem, ps, laddr);
        data := PaddrRead(laddr, len);
      }
      assert pm.hw_mem[..] == mem && CurrentMapping() == m;
      assert data == LE(Gather(mem, ps));
    }

    /** A write puts each byte at its own translated place; the tables are consulted before. */
    method LaddrWrite(laddr: nat, len: nat, data: uint32)
      requires Valid() && laddr < LINEAR && (len == 1 || len == 2 || len == 4)
      requires Mapped(pm.hw_mem[..], CurrentMapping(), laddr, len)
      modifies pm.cache, pm.hw_mem
      ensures Valid()
      ensures pm.hw_mem[..] == Scatter(old(pm.hw_mem[..]), Places(old(pm.hw_mem[..]), CurrentMapping(), laddr,
          len), Split(data, len))
    {
      ghost var mem := pm.hw_mem[..];
      hide Walk, Crosses, FirstPart, Mapped, Places, Split, Scatter;
      if pg && pe {
        WriteRuns(mem, page_directory_base * 0x1000, laddr, len, data);
        if Crosses(laddr, len) {
          var len1 := FirstPart(laddr);
          var len2 := len - len1;
          var paddr1 := PageTranslate(laddr);
          var paddr2 := PageTranslate(ByteAt(laddr, len1));
          PaddrWrite(paddr1, len1, data);
          PaddrWrite(paddr2, len2, Drop(data, len1));
        } else {
          var paddr := PageTranslate(laddr);
          PaddrWrite(paddr, len, data);
        }
      } else {
        DirectRun(mem, laddr, len);
        ScatterRun(mem, Places(mem, Direct, laddr, len), Split(data, len), laddr);
        PaddrWrite(laddr, len, data);
      }
    }
  }
}
