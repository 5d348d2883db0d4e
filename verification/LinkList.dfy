/** The static node pool and the doubly linked list that LINKLIST_IMPL generates. */
module LinkList {
  import opened Lists

  /** A falling letter and its links; a null link is `NULL`. */
  datatype Fly = Fly(x: real, y: int, text: int, v: real, prev: int, next: int)

  // ---------- lists threaded through the pool ----------

  predicate InPool(n: nat, nodes: seq<int>) {
    forall i | 0 <= i < |nodes| :: 0 <= nodes[i] < n
  }

  /** The `next` links from `start` run through exactly these nodes. */
  predicate Singly(pool: seq<Fly>, start: int, nodes: seq<int>) {
    && InPool(|pool|, nodes) && start == At(nodes, 0)
    && forall i | 0 <= i < |nodes| :: pool[nodes[i]].next == At(nodes, i + 1)
  }

  function Before(nodes: seq<int>, i: nat): int
    requires i <= |nodes|
  {
    if i == 0 then NULL else nodes[i - 1]
  }

  /** Well-formed in both directions. */
  predicate Doubly(pool: seq<Fly>, head: int, nodes: seq<int>) {
    Singly(pool, head, nodes) && forall i | 0 <= i < |nodes| :: pool[nodes[i]].prev == Before(nodes, i)
  }

  function SetNext(pool: seq<Fly>, p: int, q: int): (r: seq<Fly>)
    requires p == NULL || 0 <= p < |pool|
    ensures |r| == |pool|
    ensures forall i | 0 <= i < |pool| :: r[i] == if i == p then pool[i].(next := q) else pool[i]
  {
    if p == NULL then pool else pool[p := pool[p].(next := q)]
  }

  function SetPrev(pool: seq<Fly>, p: int, q: int): (r: seq<Fly>)
    requires p == NULL || 0 <= p < |pool|
    ensures |r| == |pool|
    ensures forall i | 0 <= i < |pool| :: r[i] == if i == p then pool[i].(prev := q) else pool[i]
  {
    if p == NULL then pool else pool[p := pool[p].(prev := q)]
  }

  /** The pool after `insert(prev, next, obj)`. */
  function Inserted(pool: seq<Fly>, prev: int, next: int, obj: int): (r: seq<Fly>)
    requires (prev == NULL || 0 <= prev < |pool|) && (next == NULL || 0 <= next < |pool|) && 0 <= obj < |pool|
    ensures |r| == |pool|
  {
    SetPrev(SetNext(pool[obj := pool[obj].(prev := prev, next := next)], prev, obj), next, obj)
  }

  /** The pool after `remove(node)`. */
  function Removed(pool: seq<Fly>, node: int): (r: seq<Fly>)
    requires 0 <= node < |pool|
    requires var f := pool[node]; (f.prev == NULL || 0 <= f.prev < |pool|) && (f.next == NULL || 0 <= f.next < |pool|)
    ensures |r| == |pool|
  {
    SetPrev(SetNext(pool, pool[node].prev, pool[node].next), pool[node].next, pool[node].prev)
  }

  function With(nodes: seq<int>, k: nat, x: int): (r: seq<int>)
    requires k <= |nodes|
    ensures |r| == |nodes| + 1
    ensures forall i | 0 <= i < |r| :: r[i] == if i < k then nodes[i] else if i == k then x else nodes[i - 1]
  {
    nodes[..k] + [x] + nodes[k..]
  }

  /** Inserting a new node between neighbours keeps the list well formed. */
  lemma InsertKeepsList(pool: seq<Fly>, head: int, nodes: seq<int>, k: nat, obj: int)
    requires Doubly(pool, head, nodes) && NoDup(nodes) && k <= |nodes|
    requires 0 <= obj < |pool| && obj !in nodes
    ensures var prev, next := Before(nodes, k), At(nodes, k);
      && (prev == NULL || 0 <= prev < |pool|) && (next == NULL || 0 <= next < |pool|)
      && Doubly(Inserted(pool, prev, next, obj), if k == 0 then obj else head, With(nodes, k, obj))
  {
    var prev, next, all := Before(nodes, k), At(nodes, k), With(nodes, k, obj);
    assert prev == NULL || prev == nodes[k - 1];
    assert next == NULL || next == nodes[k];
    var pool' := Inserted(pool, prev, next, obj);
    hide Inserted, NoDup, Doubly;
    forall i | 0 <= i < |all|
      ensures 0 <= all[i] < |pool| && pool'[all[i]].next == At(all, i + 1) && pool'[all[i]].prev == Before(all, i)
    {
      if i == k {
        InsertedFields(pool, prev, next, obj, obj);
      } else {
        var j := if i < k then i else i - 1;
        assert all[i] == nodes[j];
        OldNodeLinks(pool, head, nodes, k, obj, j);
      }
    }
    DoublyIf(pool', if k == 0 then obj else head, all);
  }

  lemma DoublyIf(pool: seq<Fly>, head: int, nodes: seq<int>)
    requires head == At(nodes, 0)
    requires forall i | 0 <= i < |nodes| ::
      0 <= nodes[i] < |pool| && pool[nodes[i]].next == At(nodes, i + 1) && pool[nodes[i]].prev == Before(nodes, i)
    ensures Doubly(pool, head, nodes)
  {
  }

  lemma OldNodeLinks(pool: seq<Fly>, head: int, nodes: seq<int>, k: nat, obj: int, j: nat)
    requires Doubly(pool, head, nodes) && NoDup(nodes) && k <= |nodes| && j < |nodes|
    requires 0 <= obj < |pool| && obj !in nodes
    ensures var prev, next := Before(nodes, k), At(nodes, k);
      && (prev == NULL || 0 <= prev < |pool|) && (next == NULL || 0 <= next < |pool|) && 0 <= nodes[j] < |pool|
      && var f := Inserted(pool, prev, next, obj)[nodes[j]];
      && f.next == (if j + 1 == k then obj else At(nodes, j + 1))
      && f.prev == (if j == k then obj else Before(nodes, j))
  {
    var prev, next := Before(nodes, k), At(nodes, k);
    assert prev == NULL || prev == nodes[k - 1];
    assert next == NULL || next == nodes[k];
    NeighboursApart(nodes, k, obj);
    hide Inserted, NoDup;
    InsertedFields(pool, prev, next, obj, nodes[j]);
  }

  /** Which fields an insertion sets. */
  lemma InsertedFields(pool: seq<Fly>, prev: int, next: int, obj: int, p: int)
    requires (prev == NULL || 0 <= prev < |pool|) && (next == NULL || 0 <= next < |pool|) && 0 <= obj < |pool|
    requires prev != obj && next != obj && 0 <= p < |pool|
    ensures var f := Inserted(pool, prev, next, obj)[p];
      && f.next == (if p == prev then obj else if p == obj then next else pool[p].next)
      && f.prev == (if p == next then obj else if p == obj then prev else pool[p].prev)
      && f.x == pool[p].x && f.y == pool[p].y && f.text == pool[p].text && f.v == pool[p].v
  {
  }

  lemma RemovedFields(pool: seq<Fly>, node: int, p: int)
    requires 0 <= node < |pool| && 0 <= p < |pool|
    requires var f := pool[node]; (f.prev == NULL || 0 <= f.prev < |pool|) && (f.next == NULL || 0 <= f.next < |pool|)
    ensures var f := Removed(pool, node)[p];
      && f.next == (if p == pool[node].prev then pool[node].next else pool[p].next)
      && f.prev == (if p == pool[node].next then pool[node].prev else pool[p].prev)
      && f.x == pool[p].x && f.y == pool[p].y && f.text == pool[p].text && f.v == pool[p].v
  {
  }

  /** The nodes around position `k` are no others. */
  lemma NeighboursApart(nodes: seq<int>, k: nat, obj: int)
    requires NoDup(nodes) && k <= |nodes| && obj !in nodes
    ensures forall j | 0 <= j < |nodes| :: nodes[j] != obj && (j != k ==> nodes[j] != At(nodes, k) || k >= |nodes|)
    ensures forall j | 0 <= j < |nodes| :: j + 1 != k ==> nodes[j] != Before(nodes, k) || k == 0
  {
  }

  /** Removing a node leads its neighbours to each other. */
  lemma RemoveKeepsList(pool: seq<Fly>, head: int, nodes: seq<int>, k: nat)
    requires Doubly(pool, head, nodes) && NoDup(nodes) && k < |nodes|
    ensures var f := pool[nodes[k]];
      && f.prev == Before(nodes, k) && f.next == At(nodes, k + 1)
      && (f.prev == NULL || 0 <= f.prev < |pool|) && (f.next == NULL || 0 <= f.next < |pool|)
      && Doubly(Removed(pool, nodes[k]), if k == 0 then f.next else head, Without(nodes, k))
  {
    assert pool[nodes[k]].next == At(nodes, k + 1);
    assert pool[nodes[k]].prev == Before(nodes, k);
    var rest, pool' := Without(nodes, k), Removed(pool, nodes[k]);
    hide Removed, NoDup, Doubly;
    forall i | 0 <= i < |rest|
      ensures 0 <= rest[i] < |pool| && pool'[rest[i]].next == At(rest, i + 1)
          && pool'[rest[i]].prev == Before(rest, i)
    {
      var j := if i < k then i else i + 1;
      assert rest[i] == nodes[j];
      OtherNodeLinks(pool, head, nodes, k, j);
    }
    DoublyIf(pool', if k == 0 then pool[nodes[k]].next else head, rest);
  }

  lemma OtherNodeLinks(pool: seq<Fly>, head: int, nodes: seq<int>, k: nat, j: nat)
    requires Doubly(pool, head, nodes) && NoDup(nodes) && k < |nodes| && j < |nodes| && j != k
    ensures var f := pool[nodes[k]];
      && (f.prev == NULL || 0 <= f.prev < |pool|) && (f.next == NULL || 0 <= f.next < |pool|)
          && 0 <= nodes[j] < |pool|
      && var r := Removed(pool, nodes[k])[nodes[j]];
      && r.next == (if j + 1 == k then At(nodes, k + 1) else At(nodes, j + 1))
      && r.prev == (if j == k + 1 then Before(nodes, k) else Before(nodes, j))
  {
    assert pool[nodes[k]].next == At(nodes, k + 1);
    assert pool[nodes[k]].prev == Before(nodes, k);
    assert j != k - 1 && k > 0 ==> nodes[j] != nodes[k - 1];
    assert j != k + 1 && k + 1 < |nodes| ==> nodes[j] != nodes[k + 1];
    hide Removed, NoDup;
    RemovedFields(pool, nodes[k], nodes[j]);
  }

  lemma SinglyTail(pool: seq<Fly>, start: int, nodes: seq<int>)
    requires Singly(pool, start, nodes) && nodes != []
    ensures Singly(pool, pool[start].next, nodes[1..])
  {
    var rest := nodes[1..];
    assert At(nodes, 1) == At(rest, 0);
    forall i | 0 <= i < |rest|
      ensures 0 <= rest[i] < |pool| && pool[rest[i]].next == At(rest, i + 1)
    {
      assert rest[i] == nodes[i + 1] && At(rest, i + 1) == At(nodes, i + 2);
    }
  }

  lemma SinglyCons(pool: seq<Fly>, start: int, nodes: seq<int>, p: int)
    requires Singly(pool, start, nodes) && 0 <= p < |pool| && pool[p].next == start
    ensures Singly(pool, p, [p] + nodes)
  {
    var all := [p] + nodes;
    assert At(all, 1) == At(nodes, 0);
    forall i | 0 <= i < |all|
      ensures 0 <= all[i] < |pool| && pool[all[i]].next == At(all, i + 1)
    {
      if i > 0 {
        assert all[i] == nodes[i - 1] && At(all, i + 1) == At(nodes, i);
      }
    }
  }

  lemma SinglyKept(pool: seq<Fly>, pool': seq<Fly>, start: int, nodes: seq<int>)
    requires Singly(pool, start, nodes) && |pool'| == |pool|
    requires forall i | 0 <= i < |nodes| :: pool'[nodes[i]].next == pool[nodes[i]].next
    ensures Singly(pool', start, nodes)
  {
  }

  // ---------- the pool ----------

  /**
   * Before the first allocation nothing is linked. From then on the free list holds the entries
   * outside `used`, and behind them the sentinel `size`, which is never handed out.
   */
  ghost predicate FreeList(pool: seq<Fly>, size: nat, free_head: int, idle: seq<int>, used: set<int>) {
    && |pool| == size + 1 && pool[size].next == NULL && Splits(Below(size), used, idle)
    && if free_head == NULL then idle == Numbers(size) && used == {}
       else Singly(pool, free_head, idle + [size])
  }

  /** At most `size` entries are ever in use at once, and an allocation fails only when all are. */
  lemma PoolBound(pool: seq<Fly>, size: nat, free_head: int, idle: seq<int>, used: set<int>)
    requires FreeList(pool, size, free_head, idle, used)
    ensures |used| + |idle| == size && (idle == [] <==> |used| == size)
    ensures forall p | p in used :: 0 <= p < size
  {
    NoDupCount(idle);
    BelowCount(size);
    assert |used + Elems(idle)| == |used| + |Elems(idle)|;
    assert forall p | p in used :: p in Below(size);
  }

  lemma Initialised(pool: seq<Fly>, size: nat)
    requires |pool| == size + 1 && pool[size].next == NULL
    requires forall i | 0 <= i < size :: pool[i].next == i + 1
    ensures FreeList(pool, size, 0, Numbers(size), {})
  {
    BelowCount(size);
    NothingUsed(Numbers(size));
    var all := Numbers(size) + [size];
    forall i | 0 <= i < |all|
      ensures all[i] == i && pool[all[i]].next == At(all, i + 1)
    {
    }
  }

  lemma Taken(pool: seq<Fly>, size: nat, free_head: int, idle: seq<int>, used: set<int>)
    requires FreeList(pool, size, free_head, idle, used) && free_head != NULL && idle != []
    ensures free_head == idle[0] && 0 <= free_head < size && free_head !in used && pool[free_head].next != NULL
    ensures FreeList(pool[free_head := pool[free_head].(prev := NULL, next := NULL)], size,
        pool[free_head].next, idle[1..], used + {free_head})
  {
    hide NoDup, Splits, Elems, Numbers;
    var pool' := pool[free_head := pool[free_head].(prev := NULL, next := NULL)];
    TakeFirst(Below(size), used, idle);
    assert (idle + [size])[1..] == idle[1..] + [size];
    SinglyTail(pool, free_head, idle + [size]);
    RestApart(size, used, idle);
    SinglyKept(pool, pool', pool[free_head].next, idle[1..] + [size]);
    assert At(idle + [size], 1) == (idle + [size])[1];
  }

  lemma RestApart(size: nat, used: set<int>, idle: seq<int>)
    requires Splits(Below(size), used, idle) && idle != [] && idle[0] < size
    ensures forall i | 0 <= i < |idle[1..] + [size]| :: (idle[1..] + [size])[i] != idle[0]
  {
    Apart(idle, 0);
  }

  lemma Given(pool: seq<Fly>, size: nat, free_head: int, idle: seq<int>, used: set<int>, p: int)
    requires FreeList(pool, size, free_head, idle, used) && p in used
    ensures 0 <= p < size && free_head != NULL
    ensures FreeList(pool[p := pool[p].(next := free_head)], size, p, [p] + idle, used - {p})
  {
    hide NoDup, Splits, Elems, Numbers;
    GiveBack(Below(size), used, idle, p);
    assert p in Below(size);
    var pool' := pool[p := pool[p].(next := free_head)];
    SinglyKept(pool, pool', free_head, idle + [size]);
    SinglyCons(pool', free_head, idle + [size], p);
    assert [p] + (idle + [size]) == [p] + idle + [size];
  }

  /** Links and fields of used entries do not concern the free list. */
  lemma UsedWritten(pool: seq<Fly>, pool': seq<Fly>, size: nat, free_head: int, idle: seq<int>, used: set<int>)
    requires FreeList(pool, size, free_head, idle, used) && |pool'| == |pool|
    requires forall i | 0 <= i < |pool| && i !in used :: pool'[i] == pool[i]
    ensures FreeList(pool', size, free_head, idle, used)
  {
    assert size !in used by {
      assert size !in Below(size);
    }
    if free_head != NULL {
      forall i | 0 <= i < |idle + [size]|
        ensures (idle + [size])[i] !in used
      {
        if i < |idle| {
          InElems(idle, idle[i]);
        }
      }
      SinglyKept(pool, pool', free_head, idle + [size]);
    }
  }

  class FlyPool {
    const size: nat
    const pool: array<Fly>
    var free_head: int
    ghost var idle: seq<int>
    ghost var used: set<int>

    ghost predicate Valid()
      reads this, pool
    {
      FreeList(pool[..], size, free_head, idle, used)
    }

    constructor (n: nat)
      ensures Valid() && size == n && used == {} && fresh(pool)
    {
      size, free_head := n, NULL;
      pool := new Fly[n + 1](_ => Fly(0.0, 0, 0, 0.0, NULL, NULL));
      idle, used := Numbers(n), {};
      new;
      BelowCount(n);
      NothingUsed(Numbers(n));
    }

    /** The first free entry; the pool is linked up on the first call only, and the sentinel stays behind. */
    method New() returns (ret: int)
      requires Valid() && |used| < size
      modifies this, pool
      ensures Valid() && old(idle) == [ret] + idle && used == old(used) + {ret}
      ensures 0 <= ret < size && ret !in old(used) && pool[ret].prev == NULL && pool[ret].next == NULL
      ensures forall p | 0 <= p < pool.Length && p in old(used) :: pool[p] == old(pool[p])
      ensures free_head != NULL
      ensures old(free_head) != NULL ==>
        ret == old(free_head) && forall p | 0 <= p < pool.Length && p != ret :: pool[p] == old(pool[p])
    {
      hide Splits, NoDup, Elems, Numbers;
      PoolBound(pool[..], size, free_head, idle, used);
      var free_head' := free_head;
      if free_head' == NULL {
        LinkUp();
        free_head' := 0;
      }
      ghost var linked := pool[..];
      Taken(linked, size, free_head', idle, used);
      assert pool[free_head'].next != NULL;
      ret := free_head';
      free_head := pool[free_head'].next;
      pool[ret] := pool[ret].(prev := NULL, next := NULL);
      assert pool[..] == linked[ret := linked[ret].(prev := NULL, next := NULL)];
      idle, used := idle[1..], used + {ret};
    }

    /** The loop of the first allocation. */
    method LinkUp()
      requires Valid() && free_head == NULL
      modifies pool
      ensures FreeList(pool[..], size, 0, idle, used)
    {
      hide Splits, NoDup, Elems, Numbers;
      var i := 1;
      while i <= size
        invariant 1 <= i <= size + 1 && pool[size].next == NULL
        invariant forall j | 0 <= j < i - 1 :: pool[j].next == j + 1
      {
        pool[i - 1] := pool[i - 1].(next := i);
        i := i + 1;
      }
      Initialised(pool[..], size);
    }

    method Insert(prev: int, next: int, obj: int)
      requires Valid() && (prev != NULL || next != NULL) && obj in used
      requires (prev == NULL || prev in used) && (next == NULL || next in used)
      modifies pool
      ensures Valid() && 0 <= obj < size && (prev == NULL || 0 <= prev < size) && (next == NULL || 0 <= next < size)
      ensures pool[..] == Inserted(old(pool[..]), prev, next, obj)
    {
      hide Splits;
      ghost var before := pool[..];
      PoolBound(before, size, free_head, idle, used);
      pool[obj] := pool[obj].(prev := prev);
      pool[obj] := pool[obj].(next := next);
      if prev != NULL {
        pool[prev] := pool[prev].(next := obj);
      }
      if next != NULL {
        pool[next] := pool[next].(prev := obj);
      }
      assert pool[..] == Inserted(before, prev, next, obj);
      UsedWritten(before, pool[..], size, free_head, idle, used);
    }

    method Remove(node: int)
      requires Valid() && node in used && 0 <= node < pool.Length
      requires pool[node].prev == NULL || pool[node].prev in used
      requires pool[node].next == NULL || pool[node].next in used
      modifies pool
      ensures Valid() && (old(pool[node].prev) == NULL || 0 <= old(pool[node].prev) < pool.Length)
      ensures old(pool[node].next) == NULL || 0 <= old(pool[node].next) < pool.Length
      ensures pool[..] == Removed(old(pool[..]), node)
    {
      hide Splits;
      ghost var before := pool[..];
      PoolBound(before, size, free_head, idle, used);
      var prev, next := pool[node].prev, pool[node].next;
      if prev != NULL {
        pool[prev] := pool[prev].(next := next);
      }
      if next != NULL {
        pool[next] := pool[next].(prev := prev);
      }
      assert pool[..] == Removed(before, node);
      UsedWritten(before, pool[..], size, free_head, idle, used);
    }

    method Free(node: int)
      requires Valid() && node in used
      modifies this, pool
      ensures Valid() && 0 <= node < size && used == old(used) - {node} && idle == [node] + old(idle)
      ensures pool[..] == old(pool[..])[node := old(pool[node]).(next := old(free_head))]
      ensures free_head == node
    {
      hide Splits, NoDup, Elems, Numbers;
      ghost var before := pool[..];
      Given(before, size, free_head, idle, used, node);
      pool[node] := pool[node].(next := free_head);
      assert pool[..] == before[node := before[node].(next := free_head)];
      free_head := node;
      idle, used := [node] + idle, used - {node};
    }
  }
}
