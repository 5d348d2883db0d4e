/** The static pool of breakpoints: a live list, a free list, and the patched guest memory. */
module Breakpoint {
  import opened Powers
  import opened Bytes
  import opened Lists
  import opened BreakpointSpec

  const NR_BP := 32

  /** A pool entry; pointers into the pool are indices. */
  datatype BP = BP(NO: nat, ori_byte: byte, enable: bool, in_use: bool, watchpoint: bool, addr: nat,
      old_val: uint32, next: int)

  function AsEntry(b: BP): Entry {
    if b.watchpoint then Watch else Break(b.addr, b.ori_byte)
  }

  // ---------- lists threaded through the pool ----------

  predicate InPool(nodes: seq<int>) {
    forall i | 0 <= i < |nodes| :: 0 <= nodes[i] < NR_BP
  }

  /** The `next` links from `start` run through exactly these nodes. */
  predicate Chain(pool: seq<BP>, start: int, nodes: seq<int>)
    requires |pool| == NR_BP
  {
    && InPool(nodes) && start == At(nodes, 0)
    && forall i | 0 <= i < |nodes| :: pool[nodes[i]].next == At(nodes, i + 1)
  }

  lemma ChainHead(pool: seq<BP>, start: int, nodes: seq<int>)
    requires |pool| == NR_BP && Chain(pool, start, nodes)
    ensures start == NULL <==> nodes == []
    ensures nodes != [] ==> start == nodes[0] && 0 <= start < NR_BP
  {
  }

  lemma ChainTail(pool: seq<BP>, start: int, nodes: seq<int>)
    requires |pool| == NR_BP && Chain(pool, start, nodes) && nodes != []
    ensures Chain(pool, pool[start].next, nodes[1..])
  {
    var rest := nodes[1..];
    assert At(nodes, 1) == At(rest, 0);
    forall i | 0 <= i < |rest|
      ensures 0 <= rest[i] < NR_BP && pool[rest[i]].next == At(rest, i + 1)
    {
      assert rest[i] == nodes[i + 1] && At(rest, i + 1) == At(nodes, i + 2);
    }
  }

  /** Changing one entry outside a list leaves the list alone. */
  lemma ChainKept(pool: seq<BP>, start: int, nodes: seq<int>, p: int, b: BP)
    requires |pool| == NR_BP && Chain(pool, start, nodes) && 0 <= p < NR_BP
    requires p !in nodes || b.next == pool[p].next
    ensures Chain(pool[p := b], start, nodes)
  {
  }

  lemma ChainCons(pool: seq<BP>, start: int, nodes: seq<int>, p: int)
    requires |pool| == NR_BP && Chain(pool, start, nodes) && 0 <= p < NR_BP && pool[p].next == start
    ensures Chain(pool, p, [p] + nodes)
  {
    var all := [p] + nodes;
    assert At(all, 1) == At(nodes, 0);
    forall i | 0 <= i < |all|
      ensures 0 <= all[i] < NR_BP && pool[all[i]].next == At(all, i + 1)
    {
      if i > 0 {
        assert all[i] == nodes[i - 1] && At(all, i + 1) == At(nodes, i);
      }
    }
  }

  /** The pool after the link into node `k` was led past it. */
  function Unlinked(pool: seq<BP>, nodes: seq<int>, k: nat): (r: seq<BP>)
    requires |pool| == NR_BP && InPool(nodes) && k < |nodes|
    ensures |r| == |pool|
  {
    if k == 0 then pool else pool[nodes[k - 1] := pool[nodes[k - 1]].(next := pool[nodes[k]].next)]
  }

  lemma ChainWithout(pool: seq<BP>, start: int, nodes: seq<int>, k: nat)
    requires |pool| == NR_BP && Chain(pool, start, nodes) && NoDup(nodes) && k < |nodes|
    ensures Chain(Unlinked(pool, nodes, k), if k == 0 then pool[nodes[0]].next else start, Without(nodes, k))
  {
    var rest, pool' := Without(nodes, k), Unlinked(pool, nodes, k);
    hide Unlinked, NoDup;
    forall i | 0 <= i < |rest|
      ensures 0 <= rest[i] < NR_BP && pool'[rest[i]].next == At(rest, i + 1)
    {
      var j := if i < k then i else i + 1;
      assert rest[i] == nodes[j];
      LinkAfter(pool, start, nodes, k, j);
    }
  }

  lemma LinkAfter(pool: seq<BP>, start: int, nodes: seq<int>, k: nat, j: nat)
    requires |pool| == NR_BP && Chain(pool, start, nodes) && NoDup(nodes) && k < |nodes| && j < |nodes| && j != k
    ensures Unlinked(pool, nodes, k)[nodes[j]].next == if j + 1 == k then At(nodes, k + 1) else At(nodes, j + 1)
  {
    assert j + 1 != k && k > 0 ==> nodes[j] != nodes[k - 1];
  }

  /** The values that a list of nodes stands for. */
  function View(pool: seq<BP>, nodes: seq<int>): (es: seq<Entry>)
    requires |pool| == NR_BP && InPool(nodes)
    ensures |es| == |nodes| && forall i | 0 <= i < |nodes| :: es[i] == AsEntry(pool[nodes[i]])
  {
    seq(|nodes|, i requires 0 <= i < |nodes| => AsEntry(pool[nodes[i]]))
  }

  lemma ViewKept(pool: seq<BP>, nodes: seq<int>, p: int, b: BP)
    requires |pool| == NR_BP && InPool(nodes) && 0 <= p < NR_BP
    requires p !in nodes || AsEntry(b) == AsEntry(pool[p])
    ensures View(pool[p := b], nodes) == View(pool, nodes)
  {
  }

  lemma ViewCons(pool: seq<BP>, nodes: seq<int>, p: int)
    requires |pool| == NR_BP && InPool(nodes) && 0 <= p < NR_BP
    ensures InPool([p] + nodes) && View(pool, [p] + nodes) == [AsEntry(pool[p])] + View(pool, nodes)
  {
  }

  lemma ViewWithout(pool: seq<BP>, nodes: seq<int>, k: nat)
    requires |pool| == NR_BP && InPool(nodes) && k < |nodes|
    ensures InPool(Without(nodes, k)) && View(pool, Without(nodes, k)) == Without(View(pool, nodes), k)
  {
  }

  // ---------- the pool ----------

  predicate Flags(pool: seq<BP>, used: set<int>) {
    |pool| == NR_BP && forall i | 0 <= i < NR_BP :: pool[i].NO == i && (pool[i].in_use <==> i in used)
  }

  /** The free list holds exactly the entries outside `used`, and `in_use` says which they are. */
  ghost predicate Pool(pool: seq<BP>, free_: int, idle: seq<int>, used: set<int>) {
    Flags(pool, used) && Splits(Below(NR_BP), used, idle) && Chain(pool, free_, idle)
  }

  /** Live and free list are disjoint, acyclic, and hold every entry once. */
  ghost predicate PoolLists(pool: seq<BP>, head: int, live: seq<int>, free_: int, idle: seq<int>) {
    NoDup(live) && Pool(pool, free_, idle, Elems(live)) && Chain(pool, head, live)
  }

  /** The two lists always hold 32 entries together, so an allocation fails only with 32 live ones. */
  lemma PoolIsShared(pool: seq<BP>, head: int, live: seq<int>, free_: int, idle: seq<int>)
    requires PoolLists(pool, head, live, free_, idle)
    ensures |live| + |idle| == NR_BP
    ensures free_ == NULL <==> |live| == NR_BP
    ensures forall i | 0 <= i < NR_BP :: i in live <==> i !in idle
  {
    NoDupCount(live);
    NoDupCount(idle);
    BelowCount(NR_BP);
    assert |Elems(live) + Elems(idle)| == |Elems(live)| + |Elems(idle)|;
    forall i | 0 <= i < NR_BP
      ensures i in live <==> i !in idle
    {
      InElems(live, i);
      InElems(idle, i);
    }
  }

  lemma PoolTaken(pool: seq<BP>, free_: int, idle: seq<int>, used: set<int>)
    requires Pool(pool, free_, idle, used) && free_ != NULL
    ensures 0 <= free_ < NR_BP && free_ !in used && idle != [] && idle[0] == free_ && !pool[free_].in_use
    ensures Pool(pool[free_ := pool[free_].(in_use := true)], pool[free_].next, idle[1..], used + {free_})
  {
    hide Splits, NoDup;
    var pool' := pool[free_ := pool[free_].(in_use := true)];
    TakeFirst(Below(NR_BP), used, idle);
    ChainTail(pool, free_, idle);
    ChainKept(pool, pool[free_].next, idle[1..], free_, pool'[free_]);
  }

  lemma PoolGiven(pool: seq<BP>, free_: int, idle: seq<int>, used: set<int>, p: int)
    requires Pool(pool, free_, idle, used) && p in used
    ensures 0 <= p < NR_BP && pool[p].in_use && p !in idle
    ensures Pool(pool[p := pool[p].(in_use := false, next := free_)], p, [p] + idle, used - {p})
  {
    hide Splits, NoDup;
    GiveBack(Below(NR_BP), used, idle, p);
    var pool' := pool[p := pool[p].(in_use := false, next := free_)];
    ChainKept(pool, free_, idle, p, pool'[p]);
    ChainCons(pool', free_, idle, p);
  }

  /** Writing fields of a used entry other than its flag and number does not concern the free list. */
  lemma PoolKept(pool: seq<BP>, free_: int, idle: seq<int>, used: set<int>, p: int, b: BP)
    requires Pool(pool, free_, idle, used) && p in used && 0 <= p < NR_BP
    requires b.NO == pool[p].NO && b.in_use
    ensures p !in idle && Pool(pool[p := b], free_, idle, used)
  {
    hide NoDup;
    InElems(idle, p);
    ChainKept(pool, free_, idle, p, b);
  }

  lemma PoolAllFree(pool: seq<BP>)
    requires Flags(pool, {}) && forall i | 0 <= i < NR_BP :: pool[i].next == if i + 1 < NR_BP then i + 1 else NULL
    ensures PoolLists(pool, NULL, [], 0, Numbers(NR_BP))
  {
    BelowCount(NR_BP);
    NothingUsed(Numbers(NR_BP));
  }

  /** A used entry outside the live list becomes its head. */
  lemma Pushed(pool: seq<BP>, head: int, live: seq<int>, free_: int, idle: seq<int>, p: int, b: BP)
    requires |pool| == NR_BP && NoDup(live) && p !in live && Chain(pool, head, live)
    requires Pool(pool, free_, idle, Elems(live) + {p}) && 0 <= p < NR_BP
    requires b.NO == pool[p].NO && b.in_use && b.next == head
    ensures pool[p].NO == p && PoolLists(pool[p := b], p, [p] + live, free_, idle)
    ensures View(pool[p := b], [p] + live) == [AsEntry(b)] + View(pool, live)
  {
    hide Splits, NoDup;
    var pool' := pool[p := b];
    PoolKept(pool, free_, idle, Elems(live) + {p}, p, b);
    ConsElems(p, live);
    ChainKept(pool, head, live, p, b);
    ChainCons(pool', head, live, p);
    ViewKept(pool, live, p, b);
    ViewCons(pool', live, p);
  }

  /** One step along the live list. */
  lemma Node(pool: seq<BP>, head: int, live: seq<int>, free_: int, idle: seq<int>, k: nat)
    requires PoolLists(pool, head, live, free_, idle)
    ensures |pool| == NR_BP && head == At(live, 0)
    ensures k < |live| ==> 0 <= live[k] < NR_BP && pool[live[k]].NO == live[k]
    ensures k < |live| ==> pool[live[k]].next == At(live, k + 1)
    ensures k < |live| ==> pool[live[k]].in_use
  {
    if k < |live| {
      InElems(live, live[k]);
    }
  }

  /** Leading the list past node `k` changes neither the free list nor what the entries stand for. */
  lemma Unhooked(pool: seq<BP>, head: int, live: seq<int>, free_: int, idle: seq<int>, k: nat)
    requires PoolLists(pool, head, live, free_, idle) && k < |live|
    ensures var pool' := Unlinked(pool, live, k);
      && Chain(pool', if k == 0 then pool[live[0]].next else head, Without(live, k))
      && Pool(pool', free_, idle, Elems(live)) && View(pool', live) == View(pool, live)
    ensures NoDup(Without(live, k)) && Elems(Without(live, k)) == Elems(live) - {live[k]}
    ensures live[k] !in Without(live, k) && live[k] in Elems(live) && pool[live[k]].NO == live[k]
  {
    hide Splits, NoDup, Elems;
    ChainWithout(pool, head, live, k);
    WithoutElems(live, k);
    InElems(live, live[k]);
    InElems(Without(live, k), live[k]);
    if k > 0 {
      var q := live[k - 1];
      var b := pool[q].(next := pool[live[k]].next);
      InElems(live, q);
      PoolKept(pool, free_, idle, Elems(live), q, b);
      ViewKept(pool, live, q, b);
    }
  }

  lemma ViewTail(pool: seq<BP>, nodes: seq<int>)
    requires |pool| == NR_BP && InPool(nodes) && nodes != []
    ensures InPool(nodes[1..]) && View(pool, nodes[1..]) == View(pool, nodes)[1..]
  {
    assert forall i | 0 <= i < |nodes[1..]| :: nodes[1..][i] == nodes[i + 1];
  }

  lemma NothingLive(pool: seq<BP>, free_: int, idle: seq<int>)
    requires Pool(pool, free_, idle, {})
    ensures PoolLists(pool, NULL, [], free_, idle)
  {
    assert Elems<int>([]) == {};
  }

  /** Setting fields that mean nothing to the lists. */
  lemma Enabled(pool: seq<BP>, head: int, live: seq<int>, free_: int, idle: seq<int>, k: nat, b: BP)
    requires PoolLists(pool, head, live, free_, idle) && k < |live| && InPool(live)
    requires b.NO == pool[live[k]].NO && b.in_use && b.next == pool[live[k]].next
        && AsEntry(b) == AsEntry(pool[live[k]])
    ensures PoolLists(pool[live[k] := b], head, live, free_, idle)
    ensures View(pool[live[k] := b], live) == View(pool, live)
  {
    InElems(live, live[k]);
    PoolKept(pool, free_, idle, Elems(live), live[k], b);
    ViewKept(pool, live, live[k], b);
    ChainKept(pool, head, live, live[k], b);
  }

  // ---------- the debugger ----------

  class Debugger {
    const bp_list: array<BP>
    const mem: array<byte>
    var head: int
    var free_: int
    ghost var live: seq<int>
    ghost var idle: seq<int>
    /** The guest's memory as it would be without breakpoints. */
    ghost var guest: seq<byte>

    ghost predicate Valid()
      reads this, bp_list
    {
      && bp_list.Length == NR_BP && InPool(live)
      && PoolLists(bp_list[..], head, live, free_, idle)
      && InRange(mem.Length, Entries())
    }

    /** The live entries, newest first. */
    ghost function Entries(): seq<Entry>
      requires bp_list.Length == NR_BP && InPool(live)
      reads this, bp_list
    {
      View(bp_list[..], live)
    }

    /** Memory is the guest's with the trap at exactly the live addresses. */
    ghost predicate Overlaid()
      requires Valid()
      reads this, bp_list, mem
    {
      |guest| == mem.Length && Recorded(guest, Entries()) && mem[..] == Patched(guest, Entries())
    }

    constructor (memory: array<byte>, pool: array<BP>)
      requires pool.Length == NR_BP
      ensures mem == memory && bp_list == pool
    {
      mem, bp_list, head, free_ := memory, pool, NULL, NULL;
      live, idle, guest := [], [], [];
    }

    /** `init_bp_list`: everything is free. */
    method InitBpList()
      requires bp_list.Length == NR_BP
      modifies this, bp_list
      ensures Valid() && live == [] && idle == Numbers(32) && guest == mem[..] && Overlaid()
      ensures Exact(guest, State()) && OneEach(Entries())
    {
      var i := 0;
      while i < NR_BP
        modifies bp_list
        invariant i <= NR_BP
        invariant forall j | 0 <= j < i ::
          bp_list[j].NO == j && !bp_list[j].in_use && bp_list[j].next == if j + 1 < NR_BP then j + 1 else NULL
      {
        bp_list[i] := bp_list[i].(NO := i, in_use := false, next := if i + 1 < NR_BP then i + 1 else NULL);
        i := i + 1;
      }
      head := NULL;
      free_ := 0;
      live, idle, guest := [], Numbers(NR_BP), mem[..];
      PoolAllFree(bp_list[..]);
      assert Entries() == [];
    }

    /** The head of the free list; its `in_use` flag cannot be set already. */
    method NewBP() returns (p: int)
      requires Valid() && free_ != NULL
      modifies `free_, `idle, bp_list
      ensures p == old(free_) && p !in live && 0 <= p < NR_BP && old(idle) == [p] + idle && bp_list[p].in_use
      ensures NoDup(live) && Chain(bp_list[..], head, live) && Pool(bp_list[..], free_, idle, Elems(live) + {p})
      ensures Entries() == old(Entries())
    {
      hide NoDup, Elems, Splits, Below, View;
      ghost var pool := bp_list[..];
      p := free_;
      PoolTaken(pool, free_, idle, Elems(live));
      InElems(live, p);
      free_ := bp_list[free_].next;
      assert bp_list[p].in_use == false;
      bp_list[p] := bp_list[p].(in_use := true);
      idle := idle[1..];
      assert bp_list[..] == pool[p := pool[p].(in_use := true)];
      ChainKept(pool, head, live, p, bp_list[p]);
      ViewKept(pool, live, p, bp_list[p]);
    }

    /** Gives `p` back to the free list and undoes its patch; neither assertion can fail. */
    method FreeBP(p: int, ghost used: set<int>)
      requires Pool(bp_list[..], free_, idle, used) && p in used
      requires AsEntry(bp_list[p]).Break? ==> bp_list[p].addr < mem.Length
      modifies `free_, `idle, bp_list, mem
      ensures Pool(bp_list[..], free_, idle, used - {p}) && idle == [p] + old(idle)
      ensures mem[..] == Undo(old(mem[..]), AsEntry(old(bp_list[p])))
      ensures bp_list[..] == old(bp_list[..])[p := old(bp_list[p]).(in_use := false, next := old(free_))]
    {
      hide NoDup, Elems, Splits, Below;
      ghost var pool := bp_list[..];
      PoolGiven(pool, free_, idle, used, p);
      assert 0 <= p < bp_list.Length;
      assert bp_list[p].in_use == true;
      if !bp_list[p].watchpoint {
        mem[bp_list[p].addr] := bp_list[p].ori_byte;
      }
      bp_list[p] := bp_list[p].(in_use := false, next := free_);
      free_ := p;
      idle := [p] + idle;
      assert bp_list[..] == pool[p := pool[p].(in_use := false, next := old(free_))];
    }

    /** `set_breakpoint`: the newest live entry records the byte it replaces by the trap. */
    method SetBreakpoint(addr: nat) returns (no: nat)
      requires Valid() && free_ != NULL && addr < mem.Length
      modifies `head, `free_, `live, `idle, bp_list, mem
      ensures Valid() && live == [old(free_)] + old(live) && no == old(free_) && old(idle) == [no] + idle
      ensures Entries() == [Break(addr, old(mem[addr]))] + old(Entries()) && bp_list[no].enable
      ensures mem[..] == old(mem[..])[addr := 0xf1]
      ensures old(Overlaid()) ==> Overlaid()
    {
      hide NoDup, Elems, Splits, Below, View, InRange, Recorded, Patched, Chain, PoolLists, Pool;
      ghost var es, m := Entries(), mem[..];
      var p := NewBP();
      ghost var pool := bp_list[..];
      bp_list[p] := bp_list[p].(watchpoint := false, addr := addr);
      bp_list[p] := bp_list[p].(ori_byte := mem[bp_list[p].addr]);
      mem[bp_list[p].addr] := INT3_CODE;
      bp_list[p] := bp_list[p].(enable := true);
      bp_list[p] := bp_list[p].(next := head);
      Pushed(pool, head, live, free_, idle, p, bp_list[p]);
      if old(Overlaid()) {
        NewestRecorded(guest, m, es, addr);
      }
      InRangeCons(mem.Length, Break(addr, m[addr]), es);
      head := p;
      live := [p] + live;
      assert bp_list[..] == pool[p := bp_list[p]];
      assert mem[..] == m[addr := INT3_CODE];
      assert Entries() == [Break(addr, m[addr])] + es;
      return bp_list[p].NO;
    }

    /** `set_watchpoint`, its expression already evaluated: no memory is touched. */
    method SetWatchpoint(val: Option<uint32>) returns (no: int)
      requires Valid() && free_ != NULL
      modifies `head, `free_, `live, `idle, bp_list
      ensures Valid() && mem[..] == old(mem[..])
      ensures val.None? ==> no == -1 && live == old(live) && idle == old(idle) && Entries() == old(Entries())
      ensures val.Some? ==> live == [old(free_)] + old(live) && no == old(free_) && old(idle) == [no] + idle
      ensures val.Some? ==> Entries() == [Watch] + old(Entries())
      ensures val.Some? ==> 0 <= no < bp_list.Length && bp_list[no].enable && bp_list[no].old_val == val.value
      ensures old(Overlaid()) ==> Overlaid()
    {
      if val.None? {
        return -1;
      }
      hide NoDup, Elems, Splits, Below, View, InRange, Recorded, Patched, Chain, PoolLists, Pool;
      ghost var es := Entries();
      var p := NewBP();
      ghost var pool := bp_list[..];
      bp_list[p] := bp_list[p].(watchpoint := true, old_val := val.value, enable := true);
      bp_list[p] := bp_list[p].(next := head);
      Pushed(pool, head, live, free_, idle, p, bp_list[p]);
      head := p;
      live := [p] + live;
      assert bp_list[..] == pool[p := bp_list[p]];
      assert Entries() == [Watch] + es;
      InRangeCons(mem.Length, Watch, es);
      if old(Overlaid()) {
        WatchRecorded(guest, es);
      }
      return bp_list[p].NO;
    }

    /** The search of `delete_breakpoint`: the node with this number and the one before it. */
    method Search(no: int) returns (p: int, prev: int, ghost k: nat)
      requires Valid()
      ensures p == NULL ==> no !in live
      ensures p != NULL ==> k < |live| && p == live[k] == no && prev == if k == 0 then NULL else live[k - 1]
    {
      hide View, InRange, PoolLists;
      Node(bp_list[..], head, live, free_, idle, 0);
      p, prev, k := head, NULL, 0;
      while p != NULL
        invariant k <= |live| && p == At(live, k) && prev == (if k == 0 then NULL else live[k - 1])
        invariant forall i | 0 <= i < k :: live[i] != no
        decreases |live| - k
      {
        Node(bp_list[..], head, live, free_, idle, k);
        if bp_list[p].NO == no {
          return;
        }
        prev, p := p, bp_list[p].next;
        k := k + 1;
      }
    }

    /** `delete_breakpoint`: the entry with this number leaves the list and its patch is undone. */
    method DeleteBreakpoint(no: int) returns (found: bool, ghost k: nat)
      requires Valid()
      modifies `head, `free_, `live, `idle, bp_list, mem
      ensures Valid() && (found <==> no in old(live))
      ensures !found ==> live == old(live) && idle == old(idle)
      ensures !found ==> Entries() == old(Entries()) && mem[..] == old(mem[..])
      ensures found ==>
        && k < |old(live)| && old(live)[k] == no
        && live == Without(old(live), k) && idle == [no] + old(idle)
        && Entries() == Without(old(Entries()), k)
        && mem[..] == Undo(old(mem[..]), old(Entries())[k])
      ensures found && old(Overlaid()) ==>
        (Overlaid() <==>
          var e := old(Entries())[k]; e.Break? ==> e.ori_byte == INT3_CODE || !BreaksAt(Entries(), e.addr))
    {
      hide NoDup, Elems, Splits, Below, View, InRange, Recorded, Patched, Chain, Pool, Without;
      var p, prev;
      p, prev, k := Search(no);
      if p == NULL {
        return false, k;
      }
      ghost var pool, es := bp_list[..], Entries();
      Unhooked(pool, head, live, free_, idle, k);
      if prev == NULL {
        head := bp_list[p].next;
      } else {
        bp_list[prev] := bp_list[prev].(next := bp_list[p].next);
      }
      ghost var unlinked := bp_list[..];
      assert unlinked == Unlinked(pool, live, k);
      ghost var used := Elems(live);
      InRangeAt(mem.Length, es, k);
      live := Without(live, k);
      FreeBP(p, used);
      ChainKept(unlinked, head, live, p, bp_list[p]);
      ViewKept(unlinked, live, p, bp_list[p]);
      ViewWithout(unlinked, old(live), k);
      DeleteKeepsInRange(mem.Length, es, k);
      if old(Overlaid()) {
        DeleteKeepsOverlay(guest, es, k);
      }
      return true, k;
    }

    /** `delete_all_breakpoint_recursively`: the tail of the list goes first, so the oldest entry is undone first. */
    method DeleteFrom(p: int, ghost nodes: seq<int>, ghost used: set<int>)
      requires Pool(bp_list[..], free_, idle, used) && Chain(bp_list[..], p, nodes)
      requires bp_list.Length == NR_BP && InPool(nodes) && NoDup(nodes) && Elems(nodes) <= used
          && InRange(mem.Length, View(bp_list[..], nodes))
      modifies `free_, `idle, bp_list, mem
      ensures Pool(bp_list[..], free_, idle, used - Elems(nodes)) && idle == nodes + old(idle)
      ensures mem[..] == Restored(old(mem[..]), old(View(bp_list[..], nodes)))
      ensures forall i | 0 <= i < NR_BP && i !in nodes :: bp_list[i] == old(bp_list[i])
      decreases |nodes|
    {
      hide NoDup, Elems, Splits, Below, InRange, Chain, Pool, View, Restored;
      ghost var pool, es := bp_list[..], View(bp_list[..], nodes);
      ChainHead(pool, p, nodes);
      RestoredStep(mem[..], es);
      if p == NULL {
        EmptyElems(nodes);
        assert used - Elems(nodes) == used;
        return;
      }
      ghost var rest := nodes[1..];
      ChainTail(pool, p, nodes);
      FirstElems(nodes);
      ViewTail(pool, nodes);
      if bp_list[p].next != NULL {
        DeleteFrom(bp_list[p].next, rest, used);
      } else {
        ChainHead(pool, NULL, rest);
        EmptyElems(rest);
        RestoredStep(mem[..], View(pool, rest));
        assert used - Elems(rest) == used;
      }
      FreeBP(p, used - Elems(rest));
      assert used - Elems(rest) - {p} == used - Elems(nodes);
      assert [p] + (rest + old(idle)) == nodes + old(idle);
    }

    /** `delete_all_breakpoint`: everything is free again; memory is undone oldest first. */
    method DeleteAll()
      requires Valid()
      modifies `head, `free_, `live, `idle, bp_list, mem
      ensures Valid() && live == [] && idle == old(live) + old(idle)
      ensures mem[..] == Restored(old(mem[..]), old(Entries()))
      ensures old(Overlaid()) ==> (mem[..] == guest <==> NoLostByte(guest, old(Entries())))
    {
      hide NoDup, Splits, Elems, Below, InRange, Recorded, Patched, NoLostByte, Restored, Chain, Pool, View;
      ghost var es := Entries();
      DeleteFrom(head, live, Elems(live));
      assert Elems(live) - Elems(live) == {};
      if old(Overlaid()) {
        DeleteAllRestores(guest, es);
      }
      head := NULL;
      live := [];
      NothingLive(bp_list[..], free_, idle);
      NoneInRange(mem.Length, Entries());
    }

    /** `find_breakpoint`: the newest live breakpoint at this address, or none. */
    method FindBreakpoint(addr: nat) returns (p: int)
      requires Valid()
      ensures p == NULL <==> !BreaksAt(Entries(), addr)
      ensures p != NULL ==> exists k: nat :: k < |live| && NewestAt(Entries(), k, addr) && live[k] == p
    {
      hide View, InRange, PoolLists;
      ghost var es := Entries();
      Node(bp_list[..], head, live, free_, idle, 0);
      p := head;
      ghost var k := 0;
      while p != NULL
        invariant k <= |live| && p == At(live, k)
        invariant forall i | 0 <= i < k :: es[i].Break? ==> es[i].addr != addr
        decreases |live| - k
      {
        Node(bp_list[..], head, live, free_, idle, k);
        assert bp_list[p].in_use == true;
        assert es[k] == AsEntry(bp_list[p]);
        if !bp_list[p].watchpoint && bp_list[p].addr == addr {
          assert NewestAt(es, k, addr);
          return;
        }
        p := bp_list[p].next;
        k := k + 1;
      }
    }

    /** `mask_breakpoints`: the guest's own memory shows again. */
    method MaskBreakpoints()
      requires Valid()
      modifies mem
      ensures Valid() && mem[..] == Masked(old(mem[..]), Entries())
      ensures old(Overlaid()) ==> mem[..] == guest
    {
      hide View, InRange, PoolLists, Recorded, Patched, Masked;
      ghost var es := Entries();
      if Overlaid() {
        MaskRestores(guest, es);
      }
      Node(bp_list[..], head, live, free_, idle, 0);
      var p := head;
      ghost var k := 0;
      EmptyTail(mem[..], es);
      assert es[0..] == es;
      while p != NULL
        invariant k <= |live| && p == At(live, k) && InRange(mem.Length, es[k..])
        invariant Masked(mem[..], es[k..]) == Masked(old(mem[..]), es)
        decreases |live| - k
      {
        ghost var m := mem[..];
        Node(bp_list[..], head, live, free_, idle, k);
        assert bp_list[p].in_use == true;
        assert es[k] == AsEntry(bp_list[p]);
        MaskedStep(m, es, k);
        if !bp_list[p].watchpoint {
          mem[bp_list[p].addr] := bp_list[p].ori_byte;
        }
        assert mem[..] == Undo(m, es[k]);
        p := bp_list[p].next;
        k := k + 1;
      }
      EmptyTail(mem[..], es);
    }

    /** `resume_breakpoints`: the traps return. What the guest did in between shows at every other byte. */
    method ResumeBreakpoints()
      requires Valid() && |guest| == mem.Length
      modifies `guest, bp_list, mem
      ensures Valid() && live == old(live) && Entries() == old(Entries())
      ensures guest == old(mem[..]) && mem[..] == Patched(guest, Entries())
      ensures forall i | 0 <= i < |live| && !bp_list[live[i]].watchpoint :: bp_list[live[i]].enable
      ensures Recorded(old(guest), Entries()) ==> (Overlaid() <==> AgreeAt(old(guest), guest, Entries()))
      ensures Holds(old(guest), Entries()) ==> (Holds(guest, Entries()) <==> AgreeAt(old(guest), guest, Entries()))
    {
      hide View, InRange, PoolLists, Recorded, Patched, Resumed;
      ghost var es := Entries();
      ResumePatches(mem[..], es);
      guest := mem[..];
      RecordedAfter(old(guest), guest, es);
      Node(bp_list[..], head, live, free_, idle, 0);
      var p := head;
      ghost var k := 0;
      ResumedNone(mem[..], es);
      assert es[0..] == es;
      while p != NULL
        invariant k <= |live| && p == At(live, k) && InRange(mem.Length, es[k..])
        invariant Valid() && Entries() == es && guest == old(mem[..])
        invariant forall i | 0 <= i < k && !bp_list[live[i]].watchpoint :: bp_list[live[i]].enable
        invariant Resumed(mem[..], es[k..]) == Resumed(guest, es)
        decreases |live| - k
      {
        ghost var m, pool := mem[..], bp_list[..];
        Node(pool, head, live, free_, idle, k);
        assert bp_list[p].in_use == true;
        assert es[k] == AsEntry(bp_list[p]);
        ResumedStep(m, es, k);
        if !bp_list[p].watchpoint {
          mem[bp_list[p].addr] := INT3_CODE;
          bp_list[p] := bp_list[p].(enable := true);
        }
        assert bp_list[..] == pool[p := bp_list[p]];
        Enabled(pool, head, live, free_, idle, k, bp_list[p]);
        assert mem[..] == Patch(m, es[k]);
        p := bp_list[p].next;
        k := k + 1;
      }
      ResumedNone(mem[..], es);
    }

    /** The stop at a trap: the newest breakpoint there, if any, gives the byte back. */
    method StopAt(addr: nat) returns (p: int)
      requires Valid()
      modifies mem
      ensures Valid() && State() == Step(old(State()), Hit(addr)) && (p == NULL <==> !BreaksAt(Entries(), addr))
    {
      hide View, InRange, PoolLists;
      ghost var es := Entries();
      p := FindBreakpoint(addr);
      if p != NULL {
        ghost var k: nat :| k < |live| && NewestAt(es, k, addr) && live[k] == p;
        NewestUnique(es, addr, k);
        Node(bp_list[..], head, live, free_, idle, k);
        assert es[k] == AsEntry(bp_list[p]);
        InRangeAt(mem.Length, es, k);
        mem[bp_list[p].addr] := bp_list[p].ori_byte;
      } else {
        NewestNone(es, addr);
      }
    }

    /** Memory, entries and lists as a value. */
    ghost function State(): Session
      requires bp_list.Length == NR_BP && InPool(live)
      reads this, bp_list, mem
    {
      Session(mem[..], Entries(), live, idle)
    }

    /** One command, carried out by the methods above. */
    method Perform(c: Command)
      requires Valid() && |guest| == mem.Length && Addressed(mem.Length, c) && Room(State(), c)
      modifies `head, `free_, `live, `idle, `guest, bp_list, mem
      ensures Valid() && |guest| == mem.Length && State() == Step(old(State()), c)
    {
      hide View, InRange, PoolLists, Masked, Resumed, Recorded, Patched, NoDup, Without;
      FreeIsFirst(bp_list[..], head, live, free_, idle);
      match c {
        case SetAt(a) => var no := SetBreakpoint(a);
        case SetWatch(val) => var no := SetWatchpoint(val);
        case Delete(no) =>
          var found;
          ghost var k;
          LiveOnce(bp_list[..], head, live, free_, idle, no);
          found, k := DeleteBreakpoint(no);
        case Mask => MaskBreakpoints();
        case Resume =>
          ResumePatches(mem[..], Entries());
          ResumeBreakpoints();
        case Hit(a) => var p := StopAt(a);
        case GuestStore(a, v) => mem[a] := v;
      }
    }

    /**
     * A whole session on the debugger's own state: clean ones leave memory safe under whatever the monitor does
     * next, and with distinct live addresses it is the exact overlay.
     */
    method Obey(cs: seq<Command>)
      requires Valid() && |guest| == mem.Length && Runnable(State(), cs)
      modifies `head, `free_, `live, `idle, `guest, bp_list, mem
      ensures Valid() && State() == Run(old(State()), cs)
      ensures var s, orig := old(State()), old(guest);
        && (Sound(orig, s) && CleanRun(orig, s, cs) ==> Safe(GuestAfter(orig, cs), State()))
        && (Exact(orig, s) && OneEach(s.es) && PlainRun(s, cs) ==> Exact(GuestAfter(orig, cs), State()))
    {
      hide View, InRange, PoolLists, Step, Sound, Exact, OneEach, PlainRun, CleanRun, Safe;
      ghost var s := State();
      NumbersShared(bp_list[..], head, live, free_, idle);
      SessionOutcome(guest, s, cs);
      var i := 0;
      while i < |cs|
        invariant i <= |cs| && Valid() && |guest| == mem.Length && Runnable(State(), cs[i..])
        invariant Run(State(), cs[i..]) == Run(s, cs)
      {
        assert cs[i..][0] == cs[i] && cs[i..][1..] == cs[i + 1..];
        Perform(cs[i]);
        i := i + 1;
      }
    }
  }

  lemma NumbersShared(pool: seq<BP>, head: int, live: seq<int>, free_: int, idle: seq<int>)
    requires PoolLists(pool, head, live, free_, idle)
    ensures NoDup(live) && NoDup(idle) && forall x | x in live :: x !in idle
  {
    forall x | x in live
      ensures x !in idle
    {
      InElems(live, x);
      InElems(idle, x);
    }
  }

  lemma SessionOutcome(orig: seq<byte>, s: Session, cs: seq<Command>)
    requires |orig| == |s.m| && Fits(s) && Numbered(s) && Runnable(s, cs)
    ensures Sound(orig, s) && CleanRun(orig, s, cs) ==> Safe(GuestAfter(orig, cs), Run(s, cs))
    ensures Exact(orig, s) && OneEach(s.es) && PlainRun(s, cs) ==> Exact(GuestAfter(orig, cs), Run(s, cs))
  {
    hide Sound, Exact, OneEach, PlainRun, CleanRun, Safe, Step;
    if Sound(orig, s) && CleanRun(orig, s, cs) {
      SessionIsSafe(orig, s, cs);
      RunKeepsNumbers(s, cs);
      SafeIsSound(GuestAfter(orig, cs), Run(s, cs));
    }
    if Exact(orig, s) && OneEach(s.es) && PlainRun(s, cs) {
      DistinctAddressesStayExact(orig, s, cs);
    }
  }

  lemma NewestUnique(es: seq<Entry>, a: nat, k: nat)
    requires NewestAt(es, k, a)
    ensures Newest(es, a) == k
  {
  }

  lemma NewestNone(es: seq<Entry>, a: nat)
    requires !BreaksAt(es, a)
    ensures Newest(es, a) == |es|
  {
  }

  /** The free list's head is the first idle number. */
  lemma FreeIsFirst(pool: seq<BP>, head: int, live: seq<int>, free_: int, idle: seq<int>)
    requires PoolLists(pool, head, live, free_, idle)
    ensures |pool| == NR_BP && (idle != [] <==> free_ != NULL) && (idle != [] ==> idle[0] == free_)
  {
  }

  lemma LiveOnce(pool: seq<BP>, head: int, live: seq<int>, free_: int, idle: seq<int>, no: int)
    requires PoolLists(pool, head, live, free_, idle)
    ensures no in live <==> Position(live, no) < |live|
    ensures forall k | 0 <= k < |live| && live[k] == no :: k == Position(live, no)
  {
  }
}
