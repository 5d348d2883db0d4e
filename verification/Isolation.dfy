/** Linear addresses that do not interfere: translated apart from each other and from their own tables. */
module Isolation {
  import opened Bytes
  import opened Paging
  import opened Powers

  /** Where the byte at a linear address lives. */
  function Place(mem: seq<byte>, m: Mapping, l: nat): (p: nat)
    requires Reaches(mem, m, l)
    ensures p < |mem|
  {
    Translate(mem, m, l).value
  }

  /** Stores to these addresses neither meet each other nor change how any of them is translated. */
  ghost predicate Isolated(mem: seq<byte>, m: Mapping, ls: set<nat>) {
    && (forall l | l in ls :: Reaches(mem, m, l))
    && (forall l, k | l in ls && k in ls && l != k :: Place(mem, m, l) != Place(mem, m, k))
    && (forall l, k | l in ls && k in ls :: !Consults(mem, m, l, Place(mem, m, k)))
  }

  /** The linear addresses of an access. */
  function Range(laddr: nat, len: nat): (s: set<nat>)
    requires len <= LINEAR
    ensures forall i | 0 <= i < len :: ByteAt(laddr, i) in s
    ensures forall l | l in s :: exists i: nat :: i < len && l == ByteAt(laddr, i)
  {
    set i | 0 <= i < len :: ByteAt(laddr, i)
  }

  /** The bytes that an access sees. */
  function Seen(mem: seq<byte>, m: Mapping, laddr: nat, len: nat): (bs: seq<byte>)
    requires Mapped(mem, m, laddr, len)
    ensures |bs| == len
  {
    Gather(mem, Places(mem, m, laddr, len))
  }

  lemma RangeMapped(mem: seq<byte>, m: Mapping, ls: set<nat>, laddr: nat, len: nat)
    requires Isolated(mem, m, ls) && len <= LINEAR && Range(laddr, len) <= ls
    ensures Mapped(mem, m, laddr, len)
  {
    hide ByteAt, Reaches, Translate, Consults;
    forall i | 0 <= i < len
      ensures Reaches(mem, m, ByteAt(laddr, i))
    {
      assert ByteAt(laddr, i) in Range(laddr, len);
    }
  }

  lemma SeenAt(mem: seq<byte>, m: Mapping, laddr: nat, len: nat, i: nat)
    requires Mapped(mem, m, laddr, len) && i < len
    ensures Reaches(mem, m, ByteAt(laddr, i)) && Seen(mem, m, laddr, len)[i] == mem[Place(mem, m, ByteAt(laddr, i))]
  {
    hide ByteAt, Translate;
  }

  /** Different bytes of an access have different addresses. */
  lemma BytesApart(laddr: nat, i: nat, j: nat)
    requires i < LINEAR && j < LINEAR && i != j
    ensures ByteAt(laddr, i) != ByteAt(laddr, j)
  {
    var n := LINEAR;
    DivMod(laddr + i, n);
    DivMod(laddr + j, n);
    var p, q := (laddr + i) / n, (laddr + j) / n;
    if ByteAt(laddr, i) == ByteAt(laddr, j) {
      assert i - j == p * n - q * n == (p - q) * n;
      SmallMultiple(p - q, n, i - j);
    }
  }

  lemma SmallMultiple(d: int, n: nat, x: int)
    requires n > 0 && x == d * n && x < n && -x < n
    ensures x == 0
  {
  }

  /** The places of an access, among isolated addresses, are distinct and not consulted. */
  lemma PlacesDistinct(mem: seq<byte>, m: Mapping, ls: set<nat>, laddr: nat, len: nat)
    requires Isolated(mem, m, ls) && len <= LINEAR && Range(laddr, len) <= ls && Mapped(mem, m, laddr, len)
    ensures Distinct(Places(mem, m, laddr, len))
    ensures forall l, p | l in ls && p in Places(mem, m, laddr, len) :: !Consults(mem, m, l, p)
    ensures forall l | l in ls && l !in Range(laddr, len) :: Place(mem, m, l) !in Places(mem, m, laddr, len)
  {
    hide ByteAt, Translate, Consults, Places;
    var ps := Places(mem, m, laddr, len);
    forall i | 0 <= i < len
      ensures ByteAt(laddr, i) in ls && ps[i] == Place(mem, m, ByteAt(laddr, i))
    {
      assert ByteAt(laddr, i) in Range(laddr, len);
    }
    forall i, j | 0 <= i < j < len
      ensures ps[i] != ps[j]
    {
      BytesApart(laddr, i, j);
    }
  }

  /**
   * A write among isolated addresses leaves them isolated and translated as before; the bytes
   * written are seen, and every other isolated address shows what it showed.
   */
  lemma WriteIsolated(mem: seq<byte>, m: Mapping, ls: set<nat>, laddr: nat, bs: seq<byte>)
    requires Isolated(mem, m, ls) && |bs| <= LINEAR && Range(laddr, |bs|) <= ls
    ensures Mapped(mem, m, laddr, |bs|)
    ensures var mem' := Scatter(mem, Places(mem, m, laddr, |bs|), bs);
      && Isolated(mem', m, ls)
      && (forall l | l in ls :: Translate(mem', m, l) == Translate(mem, m, l))
      && Mapped(mem', m, laddr, |bs|) && Seen(mem', m, laddr, |bs|) == bs
      && (forall l | l in ls && l !in Range(laddr, |bs|) :: mem'[Place(mem, m, l)] == mem[Place(mem, m, l)])
      && (forall a | 0 <= a < |mem| && !Reached(mem, m, ls, a) :: mem'[a] == mem[a])
  {
    hide ByteAt, Translate, Consults, Places, Scatter, Isolated, Seen, Range, Mapped, Reaches, Reached;
    RangeMapped(mem, m, ls, laddr, |bs|);
    PlacesDistinct(mem, m, ls, laddr, |bs|);
    var ps := Places(mem, m, laddr, |bs|);
    var mem' := Scatter(mem, ps, bs);
    AllScattered(mem, ps, bs);
    forall l | l in ls
      ensures Reaches(mem, m, l) && Translate(mem', m, l) == Translate(mem, m, l)
      ensures forall a :: Consults(mem', m, l, a) == Consults(mem, m, l, a)
    {
      IsolatedReaches(mem, m, ls, l);
      forall a | 0 <= a < |mem| && Consults(mem, m, l, a)
        ensures mem'[a] == mem[a]
      {
        assert a !in ps;
      }
      WalkDependsOn(mem, mem', m, l);
      ConsultsSame(mem, mem', m, l);
    }
    StillIsolated(mem, mem', m, ls);
    RangeMapped(mem', m, ls, laddr, |bs|);
    SeenWritten(mem, mem', m, ls, laddr, bs);
    PlacesReached(mem, m, ls, laddr, |bs|);
  }

  /** Some address of `ls` is translated to `a`. */
  ghost predicate Reached(mem: seq<byte>, m: Mapping, ls: set<nat>, a: nat) {
    exists l | l in ls :: Reaches(mem, m, l) && Place(mem, m, l) == a
  }

  lemma PlacesReached(mem: seq<byte>, m: Mapping, ls: set<nat>, laddr: nat, len: nat)
    requires Mapped(mem, m, laddr, len) && len <= LINEAR && Range(laddr, len) <= ls
    ensures forall p | p in Places(mem, m, laddr, len) :: Reached(mem, m, ls, p)
  {
    hide ByteAt, Translate, Places;
    var ps := Places(mem, m, laddr, len);
    forall p | p in ps
      ensures Reached(mem, m, ls, p)
    {
      var i :| 0 <= i < |ps| && ps[i] == p;
      assert ByteAt(laddr, i) in Range(laddr, len);
      assert Reaches(mem, m, ByteAt(laddr, i)) && Place(mem, m, ByteAt(laddr, i)) == p;
    }
  }

  lemma IsolatedReaches(mem: seq<byte>, m: Mapping, ls: set<nat>, l: nat)
    requires Isolated(mem, m, ls) && l in ls
    ensures Reaches(mem, m, l)
  {
  }

  /** Distinct places get their bytes, and no other byte changes. */
  lemma AllScattered(mem: seq<byte>, ps: seq<nat>, bs: seq<byte>)
    requires |ps| == |bs| && Distinct(ps) && forall i | 0 <= i < |ps| :: ps[i] < |mem|
    ensures forall a | 0 <= a < |mem| && a !in ps :: Scatter(mem, ps, bs)[a] == mem[a]
    ensures forall i | 0 <= i < |ps| :: Scatter(mem, ps, bs)[ps[i]] == bs[i]
  {
    hide Scatter;
    forall a | 0 <= a < |mem| && a !in ps
      ensures Scatter(mem, ps, bs)[a] == mem[a]
    {
      ScatterAt(mem, ps, bs, a);
    }
    forall i | 0 <= i < |ps|
      ensures Scatter(mem, ps, bs)[ps[i]] == bs[i]
    {
      ScatterAt(mem, ps, bs, ps[i]);
    }
  }

  /** Isolation is a matter of translations and consulted bytes. */
  lemma StillIsolated(mem: seq<byte>, mem': seq<byte>, m: Mapping, ls: set<nat>)
    requires Isolated(mem, m, ls) && |mem'| == |mem|
    requires forall l | l in ls :: Reaches(mem, m, l) && Translate(mem', m, l) == Translate(mem, m, l)
    requires forall l, a | l in ls :: Consults(mem', m, l, a) == Consults(mem, m, l, a)
    ensures Isolated(mem', m, ls)
  {
    hide Translate, Consults;
    forall l | l in ls
      ensures Reaches(mem', m, l) && Place(mem', m, l) == Place(mem, m, l)
    {
    }
  }

  lemma SeenWritten(mem: seq<byte>, mem': seq<byte>, m: Mapping, ls: set<nat>, laddr: nat, bs: seq<byte>)
    requires |mem'| == |mem| && |bs| <= LINEAR && Range(laddr, |bs|) <= ls
    requires Mapped(mem, m, laddr, |bs|) && Mapped(mem', m, laddr, |bs|)
    requires forall l | l in ls :: Reaches(mem, m, l) && Translate(mem', m, l) == Translate(mem, m, l)
    requires var ps := Places(mem, m, laddr, |bs|); forall i | 0 <= i < |bs| :: mem'[ps[i]] == bs[i]
    ensures Seen(mem', m, laddr, |bs|) == bs
  {
    hide Translate, Places, Seen, ByteAt;
    var ps := Places(mem, m, laddr, |bs|);
    forall i | 0 <= i < |bs|
      ensures Seen(mem', m, laddr, |bs|)[i] == bs[i]
    {
      assert ByteAt(laddr, i) in Range(laddr, |bs|);
      SeenAt(mem', m, laddr, |bs|, i);
      assert ps[i] == Place(mem, m, ByteAt(laddr, i));
    }
  }

  lemma ConsultsSame(mem: seq<byte>, mem': seq<byte>, m: Mapping, l: nat)
    requires |mem| == |mem'| && forall a | 0 <= a < |mem| && Consults(mem, m, l, a) :: mem'[a] == mem[a]
    ensures forall a :: Consults(mem', m, l, a) == Consults(mem, m, l, a)
  {
    if m.Paged? {
      var pde_at := m.pdbr + l / PAGE_SIZE / 0x400 * 4;
      if pde_at + 4 <= |mem| {
        assert Consults(mem, m, l, pde_at) && Consults(mem, m, l, pde_at + 1) && Consults(mem, m, l, pde_at + 2)
            && Consults(mem, m, l, pde_at + 3);
        assert Dword(mem', pde_at) == Dword(mem, pde_at);
      }
    }
  }

  /** Reading elsewhere after the write gives what it gave before. */
  lemma SeenElsewhere(mem: seq<byte>, mem': seq<byte>, m: Mapping, ls: set<nat>, laddr: nat, len: nat)
    requires Isolated(mem, m, ls) && Isolated(mem', m, ls) && |mem| == |mem'| && len <= LINEAR
        && Range(laddr, len) <= ls
    requires forall l | l in ls :: Translate(mem', m, l) == Translate(mem, m, l)
    requires forall l | l in Range(laddr, len) :: mem'[Place(mem, m, l)] == mem[Place(mem, m, l)]
    ensures Mapped(mem, m, laddr, len) && Mapped(mem', m, laddr, len)
    ensures Seen(mem', m, laddr, len) == Seen(mem, m, laddr, len)
  {
    hide ByteAt, Translate, Consults, Seen;
    RangeMapped(mem, m, ls, laddr, len);
    RangeMapped(mem', m, ls, laddr, len);
    forall i | 0 <= i < len
      ensures Seen(mem', m, laddr, len)[i] == Seen(mem, m, laddr, len)[i]
    {
      assert ByteAt(laddr, i) in Range(laddr, len);
      SeenAt(mem, m, laddr, len, i);
      SeenAt(mem', m, laddr, len, i);
    }
  }
}
