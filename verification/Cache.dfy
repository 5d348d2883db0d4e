/** The write-through cache in front of physical memory: 128 groups of 8 lines of 64 bytes. */
module Cache {
  import opened Powers
  import opened Bytes

  const MEM_SIZE_B := 0x800_0000   // 128 MB
  const CACHE_SIZE_LINE := 1024
  const CACHE_SIZE_GROUP := 128
  const CACHE_GROUP_SIZE := 8
  const CACHE_LINE_SIZE := 64

  datatype CacheLine = CacheLine(valid: bool, tag: nat, data: seq<byte>)

  // the 19, 7 and 6 bit fields of a physical address
  function TagOf(paddr: nat): nat { paddr / 0x2000 }
  function GroupOf(paddr: nat): (g: nat) ensures g < CACHE_SIZE_GROUP { paddr / 0x40 % 0x80 }
  function OffsetOf(paddr: nat): (o: nat) ensures o < CACHE_LINE_SIZE { paddr % 0x40 }

  function LineGroup(l: nat): (g: nat) ensures l < CACHE_SIZE_LINE ==> g < CACHE_SIZE_GROUP { l / CACHE_GROUP_SIZE }

  /** The address of the first byte of the block with this tag and group. */
  function BlockBase(tag: nat, group: nat): nat {
    tag * 0x2000 + group * 0x40
  }

  lemma Fields(paddr: nat)
    ensures paddr == BlockBase(TagOf(paddr), GroupOf(paddr)) + OffsetOf(paddr)
    ensures BlockBase(TagOf(paddr), GroupOf(paddr)) == paddr / 0x40 * 0x40
  {
    var b := paddr / 0x40;
    DivMod(paddr, 0x40);
    DivMod(b, 0x80);
    DivUnique(paddr, 0x2000, b / 0x80, b % 0x80 * 0x40 + paddr % 0x40);
  }

  /** Two blocks that meet are the same block. */
  lemma BlocksDisjoint(t: nat, g: nat, t': nat, g': nat)
    requires g < CACHE_SIZE_GROUP && g' < CACHE_SIZE_GROUP && (t != t' || g != g')
    ensures BlockBase(t, g) + CACHE_LINE_SIZE <= BlockBase(t', g')
        || BlockBase(t', g') + CACHE_LINE_SIZE <= BlockBase(t, g)
  {
  }

  lemma LineInGroup(group: nat, index: nat)
    requires index < CACHE_GROUP_SIZE
    ensures LineGroup(group * CACHE_GROUP_SIZE + index) == group
  {
  }

  // ---------- coherence ----------

  predicate Caches(line: CacheLine, tag: nat) {
    line.valid && line.tag == tag
  }

  /** A valid line holds the bytes of its block. */
  predicate Matches(line: CacheLine, group: nat, mem: seq<byte>) {
    line.valid ==>
      var base := BlockBase(line.tag, group);
      base + CACHE_LINE_SIZE <= |mem| && line.data == mem[base..base + CACHE_LINE_SIZE]
  }

  ghost predicate AllMatch(lines: seq<CacheLine>, mem: seq<byte>)
    requires |lines| == CACHE_SIZE_LINE
  {
    forall l | 0 <= l < |lines| :: Matches(lines[l], LineGroup(l), mem)
  }

  /** No block is cached twice. */
  ghost predicate NoneTwice(lines: seq<CacheLine>)
    requires |lines| == CACHE_SIZE_LINE
  {
    forall l, k | 0 <= l < k < |lines| && lines[l].valid && lines[k].valid && LineGroup(l) == LineGroup(k) ::
      lines[l].tag != lines[k].tag
  }

  ghost predicate Coherent(lines: seq<CacheLine>, mem: seq<byte>) {
    |lines| == CACHE_SIZE_LINE && |mem| == MEM_SIZE_B && AllMatch(lines, mem) && NoneTwice(lines)
  }

  /** No line of the group caches the block of `paddr`. */
  predicate Missing(lines: seq<CacheLine>, paddr: nat)
    requires |lines| == CACHE_SIZE_LINE
  {
    forall l | 0 <= l < |lines| && LineGroup(l) == GroupOf(paddr) :: !Caches(lines[l], TagOf(paddr))
  }

  predicate Full(lines: seq<CacheLine>, group: nat)
    requires |lines| == CACHE_SIZE_LINE
  {
    forall l | 0 <= l < |lines| && LineGroup(l) == group :: lines[l].valid
  }

  /** Line `l` now caches the block of `paddr`; a valid line gives way only in a full group. */
  predicate LoadedAt(before: seq<CacheLine>, lines: seq<CacheLine>, l: nat, paddr: nat) {
    && |before| == |lines| == CACHE_SIZE_LINE && l < |lines|
    && LineGroup(l) == GroupOf(paddr) && Caches(lines[l], TagOf(paddr))
    && lines == before[l := lines[l]]
    && (before[l].valid ==> Full(before, GroupOf(paddr)))
  }

  /** A cached line answers for memory. */
  lemma HitReads(lines: seq<CacheLine>, mem: seq<byte>, l: nat, paddr: nat, len: nat)
    requires Coherent(lines, mem) && l < |lines| && LineGroup(l) == GroupOf(paddr)
    requires Caches(lines[l], TagOf(paddr)) && OffsetOf(paddr) + len <= CACHE_LINE_SIZE
    ensures |lines[l].data| == CACHE_LINE_SIZE && paddr + len <= |mem|
    ensures lines[l].data[OffsetOf(paddr)..OffsetOf(paddr) + len] == mem[paddr..paddr + len]
  {
    hide BlockBase, TagOf, GroupOf, OffsetOf, Coherent;
    Fields(paddr);
    LineMatches(lines, mem, l);
    SliceOfSlice(mem, BlockBase(TagOf(paddr), GroupOf(paddr)), CACHE_LINE_SIZE, OffsetOf(paddr), len);
  }

  lemma LineMatches(lines: seq<CacheLine>, mem: seq<byte>, l: nat)
    requires Coherent(lines, mem) && l < |lines|
    ensures Matches(lines[l], LineGroup(l), mem)
  {
  }

  lemma SliceOfSlice(mem: seq<byte>, base: nat, n: nat, o: nat, len: nat)
    requires base + n <= |mem| && o + len <= n
    ensures mem[base..base + n][o..o + len] == mem[base + o..base + o + len]
  {
    var s := mem[base..base + n];
    var x, y := s[o..o + len], mem[base + o..base + o + len];
    forall i | 0 <= i < len
      ensures x[i] == y[i]
    {
      assert x[i] == s[o + i];
    }
  }

  /** Loading a missing block into any line of its group keeps the cache coherent. */
  lemma FillKeepsCoherence(lines: seq<CacheLine>, mem: seq<byte>, l: nat, paddr: nat)
    requires Coherent(lines, mem) && l < |lines| && LineGroup(l) == GroupOf(paddr)
    requires Missing(lines, paddr) && paddr < |mem|
    ensures var base := paddr / 0x40 * 0x40;
      && base + CACHE_LINE_SIZE <= |mem|
      && Coherent(lines[l := CacheLine(true, TagOf(paddr), mem[base..base + CACHE_LINE_SIZE])], mem)
  {
    hide LineGroup, GroupOf, TagOf, BlockBase;
    Fields(paddr);
    var base := paddr / 0x40 * 0x40;
    var lines' := lines[l := CacheLine(true, TagOf(paddr), mem[base..base + CACHE_LINE_SIZE])];
    NewTagKeepsNoneTwice(lines, l, paddr, mem[base..base + CACHE_LINE_SIZE]);
    forall k | 0 <= k < |lines'|
      ensures Matches(lines'[k], LineGroup(k), mem)
    {
      assert Matches(lines[k], LineGroup(k), mem);
    }
  }

  lemma NewTagKeepsNoneTwice(lines: seq<CacheLine>, l: nat, paddr: nat, block: seq<byte>)
    requires |lines| == CACHE_SIZE_LINE && l < |lines| && LineGroup(l) == GroupOf(paddr)
    requires NoneTwice(lines) && Missing(lines, paddr)
    ensures NoneTwice(lines[l := CacheLine(true, TagOf(paddr), block)])
  {
    hide LineGroup, GroupOf, TagOf;
  }

  /** Writing through on a hit updates line and memory alike. */
  lemma HitWriteKeepsCoherence(lines: seq<CacheLine>, mem: seq<byte>, l: nat, paddr: nat, bs: seq<byte>)
    requires Coherent(lines, mem) && l < |lines| && LineGroup(l) == GroupOf(paddr)
    requires Caches(lines[l], TagOf(paddr)) && OffsetOf(paddr) + |bs| <= CACHE_LINE_SIZE
    ensures |lines[l].data| == CACHE_LINE_SIZE && paddr + |bs| <= |mem|
    ensures Coherent(lines[l := lines[l].(data := Store(lines[l].data, OffsetOf(paddr), bs))], Store(mem, paddr, bs))
  {
    hide LineGroup, GroupOf, TagOf, OffsetOf, Matches, Store;
    LineMatches(lines, mem, l);
    WrittenLineMatches(lines[l], mem, paddr, bs);
    var line' := lines[l].(data := Store(lines[l].data, OffsetOf(paddr), bs));
    var lines' := lines[l := line'];
    forall k | 0 <= k < |lines'|
      ensures Matches(lines'[k], LineGroup(k), Store(mem, paddr, bs))
    {
      assert Matches(lines[k], LineGroup(k), mem);
      if k != l {
        OtherLineKeeps(lines[k], LineGroup(k), mem, paddr, bs);
      }
    }
    assert forall k | 0 <= k < |lines| :: lines'[k].valid == lines[k].valid && lines'[k].tag == lines[k].tag;
  }

  lemma WrittenLineMatches(line: CacheLine, mem: seq<byte>, paddr: nat, bs: seq<byte>)
    requires Caches(line, TagOf(paddr)) && Matches(line, GroupOf(paddr), mem)
        && OffsetOf(paddr) + |bs| <= CACHE_LINE_SIZE
    ensures |line.data| == CACHE_LINE_SIZE && paddr + |bs| <= |mem|
    ensures Matches(line.(data := Store(line.data, OffsetOf(paddr), bs)), GroupOf(paddr), Store(mem, paddr, bs))
  {
    hide GroupOf, TagOf, OffsetOf, BlockBase;
    Fields(paddr);
    var base, o := BlockBase(TagOf(paddr), GroupOf(paddr)), OffsetOf(paddr);
    var x, y := Store(line.data, o, bs), Store(mem, paddr, bs)[base..base + CACHE_LINE_SIZE];
    forall i | 0 <= i < CACHE_LINE_SIZE
      ensures x[i] == y[i]
    {
      assert line.data[i] == mem[base + i];
    }
    assert x == y;
  }

  /** Writing past the cache on a miss touches no cached block. */
  lemma MissWriteKeepsCoherence(lines: seq<CacheLine>, mem: seq<byte>, paddr: nat, bs: seq<byte>)
    requires Coherent(lines, mem) && Missing(lines, paddr)
    requires OffsetOf(paddr) + |bs| <= CACHE_LINE_SIZE && paddr + |bs| <= |mem|
    ensures Coherent(lines, Store(mem, paddr, bs))
  {
    hide LineGroup, GroupOf, TagOf, OffsetOf, Matches, Store;
    forall k | 0 <= k < |lines|
      ensures Matches(lines[k], LineGroup(k), Store(mem, paddr, bs))
    {
      assert Matches(lines[k], LineGroup(k), mem);
      OtherLineKeeps(lines[k], LineGroup(k), mem, paddr, bs);
    }
  }

  /** A line of another block does not see the store. */
  lemma OtherLineKeeps(line: CacheLine, group: nat, mem: seq<byte>, paddr: nat, bs: seq<byte>)
    requires Matches(line, group, mem) && group < CACHE_SIZE_GROUP
    requires line.valid ==> line.tag != TagOf(paddr) || group != GroupOf(paddr)
    requires OffsetOf(paddr) + |bs| <= CACHE_LINE_SIZE && paddr + |bs| <= |mem|
    ensures Matches(line, group, Store(mem, paddr, bs))
  {
    hide BlockBase, TagOf, GroupOf, OffsetOf;
    if line.valid {
      Fields(paddr);
      BlocksDisjoint(line.tag, group, TagOf(paddr), GroupOf(paddr));
      var base, mem' := BlockBase(line.tag, group), Store(mem, paddr, bs);
      assert mem'[base..base + CACHE_LINE_SIZE] == mem[base..base + CACHE_LINE_SIZE];
    }
  }

  // ---------- the machine ----------

  class PhysicalMemory {
    const hw_mem: array<byte>
    const cache: array<CacheLine>

    ghost predicate Valid()
      reads this, hw_mem, cache
    {
      Coherent(cache[..], hw_mem[..])
    }

    /** `init_mem`: memory is cleared and nothing is cached. */
    constructor ()
      ensures Valid() && fresh(hw_mem) && fresh(cache)
      ensures forall a | 0 <= a < MEM_SIZE_B :: hw_mem[a] == 0
    {
      hw_mem := new byte[MEM_SIZE_B](_ => 0);
      cache := new CacheLine[CACHE_SIZE_LINE](_ => CacheLine(false, 0, []));
      new;
      InitCache();
    }

    method InitCache()
      requires cache.Length == CACHE_SIZE_LINE && hw_mem.Length == MEM_SIZE_B
      modifies cache
      ensures Valid()
    {
      var i := 0;
      while i < CACHE_SIZE_LINE
        invariant 0 <= i <= CACHE_SIZE_LINE
        invariant forall l | 0 <= l < i :: !cache[l].valid
      {
        cache[i] := cache[i].(valid := false);
        i := i + 1;
      }
    }

    method HwMemRead(paddr: nat, len: nat) returns (ret: nat)
      requires paddr + len <= hw_mem.Length
      ensures ret == LE(hw_mem[paddr..paddr + len])
    {
      ret := LE(hw_mem[paddr..paddr + len]);
    }

    method HwMemWrite(paddr: nat, len: nat, value: nat)
      requires paddr + len <= hw_mem.Length
      modifies hw_mem
      ensures hw_mem[..] == Store(old(hw_mem[..]), paddr, Split(value, len))
    {
      var bs := Split(value, len);
      forall i | 0 <= i < len {
        hw_mem[paddr + i] := bs[i];
      }
    }

    /** The line that caches this address, or none. */
    method CheckCache(paddr: nat) returns (index: int)
      requires Valid()
      ensures index == -1 ==> Missing(cache[..], paddr)
      ensures index == -1 || 0 <= index < CACHE_GROUP_SIZE
      ensures index != -1 ==> Caches(cache[GroupOf(paddr) * CACHE_GROUP_SIZE + index], TagOf(paddr))
    {
      var index_cache := GroupOf(paddr) * CACHE_GROUP_SIZE;
      var i := 0;
      while i < CACHE_GROUP_SIZE
        invariant i <= CACHE_GROUP_SIZE
        invariant forall l | index_cache <= l < index_cache + i :: !Caches(cache[l], TagOf(paddr))
      {
        if cache[index_cache + i].valid && cache[index_cache + i].tag == TagOf(paddr) {
          return i;
        }
        i := i + 1;
      }
      index := -1;
    }

    method FindEmptyLine(paddr: nat) returns (index: int)
      requires Valid()
      ensures index == -1 || 0 <= index < CACHE_GROUP_SIZE
      ensures index == -1 ==> Full(cache[..], GroupOf(paddr))
      ensures index != -1 ==> !cache[GroupOf(paddr) * CACHE_GROUP_SIZE + index].valid
    {
      var index_cache := GroupOf(paddr) * CACHE_GROUP_SIZE;
      var i := 0;
      while i < CACHE_GROUP_SIZE
        invariant i <= CACHE_GROUP_SIZE
        invariant forall l | index_cache <= l < index_cache + i :: cache[l].valid
      {
        if !cache[index_cache + i].valid {
          return i;
        }
        i := i + 1;
      }
      index := -1;
    }

    /** Lines 142 to 146: the block of `paddr`, fetched four bytes at a time. */
    method FetchBlock(paddr: nat) returns (block: seq<byte>)
      requires paddr / 0x40 * 0x40 + CACHE_LINE_SIZE <= hw_mem.Length
      ensures var base := paddr / 0x40 * 0x40; block == hw_mem[base..base + CACHE_LINE_SIZE]
    {
      hide Split, LE;
      var base := paddr / 0x40 * 0x40;
      block := [];
      var i := 0;
      while i < CACHE_LINE_SIZE
        invariant i <= CACHE_LINE_SIZE && i % 4 == 0
        invariant block == hw_mem[base..base + i]
      {
        var result := HwMemRead(base + i, 4);
        SplitLE(hw_mem[base + i..base + i + 4]);
        block := block + Split(result, 4);
        assert hw_mem[base..base + i] + hw_mem[base + i..base + i + 4] == hw_mem[base..base + i + 4];
        i := i + 4;
      }
    }

    /** Lines 131 to 162: read past the cache, then load the block into an empty or a random line. */
    method ReadMiss(paddr: nat, len: nat) returns (ret: nat)
      requires Valid() && Missing(cache[..], paddr)
      requires 0 < len && OffsetOf(paddr) + len <= CACHE_LINE_SIZE && paddr + len <= MEM_SIZE_B
      modifies cache
      ensures Valid()
      ensures ret == LE(hw_mem[paddr..paddr + len])
      ensures exists l: nat :: LoadedAt(old(cache[..]), cache[..], l, paddr)
    {
      ret := HwMemRead(paddr, len);
      var index := FindEmptyLine(paddr);
      if index == -1 {
        var victim: nat :| victim < CACHE_GROUP_SIZE;   // rand()
        index := victim;
      }
      ghost var lines, mem, l := cache[..], hw_mem[..], GroupOf(paddr) * CACHE_GROUP_SIZE + index;
      FillKeepsCoherence(lines, mem, l, paddr);
      var block := FetchBlock(paddr);
      cache[GroupOf(paddr) * CACHE_GROUP_SIZE + index] := CacheLine(true, TagOf(paddr), block);
      assert cache[..] == lines[l := CacheLine(true, TagOf(paddr), block)];
      assert LoadedAt(lines, cache[..], l, paddr);
    }

    /** `cache_read`: in every coherent state it reads what memory holds. */
    method CacheRead(paddr: nat, len: nat) returns (ret: nat)
      requires Valid() && paddr + len <= MEM_SIZE_B
      modifies cache
      ensures Valid()
      ensures ret == if len > 4 then 0 else LE(hw_mem[paddr..paddr + len])
      decreases len
    {
      if len > 4 || len == 0 {
        return 0;
      }
      var group, offset := GroupOf(paddr), OffsetOf(paddr);
      if offset + len - 1 >= CACHE_LINE_SIZE {
        var k := CACHE_LINE_SIZE - offset;
        var lo := CacheRead(paddr, k);
        var hi := CacheRead(paddr + k, len - k);
        // the two parts of the bitwise or have no bit in common
        ret := lo + Span(k) * hi;
        LEConcat(hw_mem[paddr..paddr + k], hw_mem[paddr + k..paddr + len]);
        assert hw_mem[paddr..paddr + k] + hw_mem[paddr + k..paddr + len] == hw_mem[paddr..paddr + len];
      } else {
        var index := CheckCache(paddr);
        if index != -1 {
          HitReads(cache[..], hw_mem[..], group * CACHE_GROUP_SIZE + index, paddr, len);
          ret := LE(cache[group * CACHE_GROUP_SIZE + index].data[offset..offset + len]);
        } else {
          ret := ReadMiss(paddr, len);
        }
      }
    }

    /** The part of a write that meets one line: written through, and not allocated on a miss. */
    method WriteWithinLine(paddr: nat, len: nat, value: nat)
      requires Valid() && OffsetOf(paddr) + len <= CACHE_LINE_SIZE && paddr + len <= MEM_SIZE_B
      modifies cache, hw_mem
      ensures Valid()
      ensures hw_mem[..] == Store(old(hw_mem[..]), paddr, Split(value, len))
    {
      hide Split, AllMatch, NoneTwice, GroupOf, TagOf, OffsetOf, Missing, LineGroup;
      var index := CheckCache(paddr);
      ghost var lines, mem, bs := cache[..], hw_mem[..], Split(value, len);
      if index != -1 {
        var l := GroupOf(paddr) * CACHE_GROUP_SIZE + index;
        LineInGroup(GroupOf(paddr), index);
        HitWriteKeepsCoherence(lines, mem, l, paddr, bs);
        cache[l] := cache[l].(data := Store(cache[l].data, OffsetOf(paddr), Split(value, len)));
        HwMemWrite(paddr, len, value);
        assert cache[..] == lines[l := lines[l].(data := Store(lines[l].data, OffsetOf(paddr), bs))];
      } else {
        MissWriteKeepsCoherence(lines, mem, paddr, bs);
        HwMemWrite(paddr, len, value);
      }
    }

    /** `cache_write`: memory changes by exactly the bytes written, and the cache follows. */
    method CacheWrite(paddr: nat, len: nat, value: nat)
      requires Valid() && 0 < len && paddr + len <= MEM_SIZE_B
      modifies cache, hw_mem
      ensures Valid()
      ensures hw_mem[..] == Store(old(hw_mem[..]), paddr, Split(value, len))
      decreases len
    {
      hide Split, Span, Drop, Store, AllMatch, NoneTwice, OffsetOf;
      var offset := OffsetOf(paddr);
      if offset + len - 1 >= CACHE_LINE_SIZE {
        ghost var mem := hw_mem[..];
        var k := CACHE_LINE_SIZE - offset;
        SplitTruncated(value, k, k);
        CacheWrite(paddr, k, value % Span(k));
        assert hw_mem[..] == Store(mem, paddr, Split(value, k));
        CacheWrite(paddr + k, len - k, Drop(value, k));
        SplitConcat(value, k, len - k);
        StoreConcat(mem, paddr, Split(value, k), Split(Drop(value, k), len - k));
      } else {
        WriteWithinLine(paddr, len, value);
      }
    }
  }
}
