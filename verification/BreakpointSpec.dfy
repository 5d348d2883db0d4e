/** What a list of breakpoints does to guest memory, as functions on values. */
module BreakpointSpec {
  import opened Powers
  import opened Bytes
  import opened Lists

  const INT3_CODE: byte := 0xf1

  /** One live entry: a patched address with the byte found there, or a watchpoint. */
  datatype Entry = Break(addr: nat, ori_byte: byte) | Watch

  /** Memory with every break address patched. The newest entry comes first. */
  function Patched(orig: seq<byte>, es: seq<Entry>): (m: seq<byte>)
    requires InRange(|orig|, es)
    ensures |m| == |orig|
  {
    if es == [] then orig
    else
      var m := Patched(orig, es[1..]);
      if es[0].Break? then m[es[0].addr := INT3_CODE] else m
  }

  predicate InRange(n: nat, es: seq<Entry>) {
    forall i | 0 <= i < |es| :: es[i].Break? ==> es[i].addr < n
  }

  /** Each entry holds the byte that memory had when it was set. */
  predicate Recorded(orig: seq<byte>, es: seq<Entry>)
    requires InRange(|orig|, es)
  {
    es == [] ||
    (Recorded(orig, es[1..]) &&
     (es[0].Break? ==> es[0].ori_byte == Patched(orig, es[1..])[es[0].addr]))
  }

  function Undo(m: seq<byte>, e: Entry): (r: seq<byte>)
    requires e.Break? ==> e.addr < |m|
    ensures |r| == |m|
  {
    if e.Break? then m[e.addr := e.ori_byte] else m
  }

  function Patch(m: seq<byte>, e: Entry): (r: seq<byte>)
    requires e.Break? ==> e.addr < |m|
    ensures |r| == |m|
  {
    if e.Break? then m[e.addr := INT3_CODE] else m
  }

  /** All entries undone, newest first, as `mask_breakpoints` walks the list. */
  function Masked(m: seq<byte>, es: seq<Entry>): (r: seq<byte>)
    requires InRange(|m|, es)
    ensures |r| == |m|
    decreases |es|
  {
    if es == [] then m else Masked(Undo(m, es[0]), es[1..])
  }

  function Resumed(m: seq<byte>, es: seq<Entry>): (r: seq<byte>)
    requires InRange(|m|, es)
    ensures |r| == |m|
    decreases |es|
  {
    if es == [] then m else Resumed(Patch(m, es[0]), es[1..])
  }

  /** All entries undone, oldest first, as `delete_all_breakpoint_recursively` does. */
  function Restored(m: seq<byte>, es: seq<Entry>): (r: seq<byte>)
    requires InRange(|m|, es)
    ensures |r| == |m|
  {
    if es == [] then m else Undo(Restored(m, es[1..]), es[0])
  }

  /** Whether some entry breaks at `a`. */
  predicate BreaksAt(es: seq<Entry>, a: nat) {
    exists i | 0 <= i < |es| :: es[i].Break? && es[i].addr == a
  }

  /** A patched byte reads as the trap; any other as the original. */
  lemma {:induction false} PatchedAt(orig: seq<byte>, es: seq<Entry>, a: nat)
    requires InRange(|orig|, es) && a < |orig|
    ensures Patched(orig, es)[a] == if BreaksAt(es, a) then INT3_CODE else orig[a]
  {
    if es != [] {
      PatchedAt(orig, es[1..], a);
      Older(es, a);
    }
  }

  /** The byte an entry holds, in terms of the older ones. */
  lemma {:induction false} RecordedAt(orig: seq<byte>, es: seq<Entry>, i: nat)
    requires InRange(|orig|, es) && Recorded(orig, es) && i < |es| && es[i].Break?
    ensures es[i].ori_byte == if BreaksAt(es[i + 1..], es[i].addr) then INT3_CODE else orig[es[i].addr]
  {
    if i == 0 {
      PatchedAt(orig, es[1..], es[0].addr);
    } else {
      RecordedAt(orig, es[1..], i - 1);
      assert es[1..][i..] == es[i + 1..];
    }
  }

  /** Recorded entry by entry. */
  lemma {:induction false} RecordedIf(orig: seq<byte>, es: seq<Entry>)
    requires InRange(|orig|, es)
    requires forall i | 0 <= i < |es| && es[i].Break? ::
      es[i].ori_byte == if BreaksAt(es[i + 1..], es[i].addr) then INT3_CODE else orig[es[i].addr]
    ensures Recorded(orig, es)
  {
    if es != [] {
      forall i | 0 <= i < |es[1..]| && es[1..][i].Break?
        ensures es[1..][i].ori_byte ==
          if BreaksAt(es[1..][i + 1..], es[1..][i].addr) then INT3_CODE else orig[es[1..][i].addr]
      {
        assert es[1..][i] == es[i + 1] && es[1..][i + 1..] == es[i + 2..];
      }
      RecordedIf(orig, es[1..]);
      if es[0].Break? {
        PatchedAt(orig, es[1..], es[0].addr);
      }
    }
  }

  lemma InRangeCons(n: nat, e: Entry, es: seq<Entry>)
    requires InRange(n, es) && (e.Break? ==> e.addr < n)
    ensures InRange(n, [e] + es)
  {
  }

  /** A new entry that holds the byte it replaces keeps the record and the overlay. */
  lemma NewestRecorded(orig: seq<byte>, m: seq<byte>, es: seq<Entry>, a: nat)
    requires |orig| == |m| && InRange(|orig|, es) && a < |orig|
    ensures InRange(|orig|, [Break(a, m[a])] + es)
    ensures Recorded(orig, es) && m == Patched(orig, es) ==>
      Recorded(orig, [Break(a, m[a])] + es) && m[a := INT3_CODE] == Patched(orig, [Break(a, m[a])] + es)
  {
    InRangeCons(|orig|, Break(a, m[a]), es);
    assert ([Break(a, m[a])] + es)[1..] == es;
  }

  lemma WatchRecorded(orig: seq<byte>, es: seq<Entry>)
    requires InRange(|orig|, es)
    ensures InRange(|orig|, [Watch] + es)
    ensures Recorded(orig, [Watch] + es) == Recorded(orig, es) && Patched(orig, [Watch] + es) == Patched(orig, es)
  {
    InRangeCons(|orig|, Watch, es);
    assert ([Watch] + es)[1..] == es;
  }

  // ---------- mask and resume ----------

  /** Undoing newest first ends at the oldest entry of each address, which holds the original byte. */
  lemma {:induction false} MaskedAt(m: seq<byte>, orig: seq<byte>, es: seq<Entry>, a: nat)
    requires |m| == |orig| && InRange(|orig|, es) && Recorded(orig, es) && a < |orig|
    ensures Masked(m, es)[a] == if BreaksAt(es, a) then orig[a] else m[a]
    decreases |es|
  {
    if es != [] {
      var m' := Undo(m, es[0]);
      MaskedAt(m', orig, es[1..], a);
      Older(es, a);
      if es[0].Break? && es[0].addr == a {
        RecordedAt(orig, es, 0);
      }
    }
  }

  lemma Older(es: seq<Entry>, a: nat)
    requires es != []
    ensures BreaksAt(es, a) <==> (es[0].Break? && es[0].addr == a) || BreaksAt(es[1..], a)
  {
    if BreaksAt(es[1..], a) {
      var i :| 0 <= i < |es[1..]| && es[1..][i].Break? && es[1..][i].addr == a;
      assert es[i + 1].addr == a;
    }
    if BreaksAt(es, a) {
      var i :| 0 <= i < |es| && es[i].Break? && es[i].addr == a;
      assert i > 0 ==> es[1..][i - 1].addr == a;
    }
  }

  /** Masking shows the original memory, whatever addresses coincide. */
  lemma MaskRestores(orig: seq<byte>, es: seq<Entry>)
    requires InRange(|orig|, es) && Recorded(orig, es)
    ensures Masked(Patched(orig, es), es) == orig
  {
    forall a | 0 <= a < |orig|
      ensures Masked(Patched(orig, es), es)[a] == orig[a]
    {
      MaskedAt(Patched(orig, es), orig, es, a);
      PatchedAt(orig, es, a);
    }
  }

  lemma {:induction false} ResumedAt(m: seq<byte>, es: seq<Entry>, a: nat)
    requires InRange(|m|, es) && a < |m|
    ensures Resumed(m, es)[a] == if BreaksAt(es, a) then INT3_CODE else m[a]
    decreases |es|
  {
    if es != [] {
      ResumedAt(Patch(m, es[0]), es[1..], a);
      Older(es, a);
    }
  }

  /** Resuming patches whatever memory has become in between. */
  lemma ResumePatches(m: seq<byte>, es: seq<Entry>)
    requires InRange(|m|, es)
    ensures Resumed(m, es) == Patched(m, es)
  {
    forall a | 0 <= a < |m|
      ensures Resumed(m, es)[a] == Patched(m, es)[a]
    {
      ResumedAt(m, es, a);
      PatchedAt(m, es, a);
    }
  }

  lemma MaskedStep(m: seq<byte>, es: seq<Entry>, k: nat)
    requires k < |es| && InRange(|m|, es[k..])
    ensures InRange(|m|, es[k + 1..]) && (es[k].Break? ==> es[k].addr < |m|)
    ensures Masked(m, es[k..]) == Masked(Undo(m, es[k]), es[k + 1..])
  {
    Rest(|m|, es, k);
  }

  lemma ResumedStep(m: seq<byte>, es: seq<Entry>, k: nat)
    requires k < |es| && InRange(|m|, es[k..])
    ensures InRange(|m|, es[k + 1..]) && (es[k].Break? ==> es[k].addr < |m|)
    ensures Resumed(m, es[k..]) == Resumed(Patch(m, es[k]), es[k + 1..])
  {
    Rest(|m|, es, k);
  }

  lemma Rest(n: nat, es: seq<Entry>, k: nat)
    requires k < |es| && InRange(n, es[k..])
    ensures es[k..][0] == es[k] && es[k..][1..] == es[k + 1..]
    ensures InRange(n, es[k + 1..]) && (es[k].Break? ==> es[k].addr < n)
  {
    assert es[k..][0] == es[k] && es[k..][1..] == es[k + 1..];
    var older := es[k + 1..];
    forall i | 0 <= i < |older|
      ensures older[i].Break? ==> older[i].addr < n
    {
      assert older[i] == es[k..][i + 1];
    }
  }

  lemma EmptyTail(m: seq<byte>, es: seq<Entry>)
    ensures InRange(|m|, es[|es|..]) && Masked(m, es[|es|..]) == m
  {
  }

  lemma ResumedNone(m: seq<byte>, es: seq<Entry>)
    ensures InRange(|m|, es[|es|..]) && Resumed(m, es[|es|..]) == m
  {
  }

  /** Two memories have the same bytes wherever an entry breaks. */
  predicate AgreeAt(orig: seq<byte>, orig': seq<byte>, es: seq<Entry>)
    requires |orig| == |orig'| && InRange(|orig|, es)
  {
    forall i | 0 <= i < |es| && es[i].Break? :: orig'[es[i].addr] == orig[es[i].addr]
  }

  /** The record stays true of a changed memory exactly if no byte under a breakpoint changed. */
  lemma {:induction false} RecordedAfter(orig: seq<byte>, orig': seq<byte>, es: seq<Entry>)
    requires |orig| == |orig'| && InRange(|orig|, es)
    ensures Recorded(orig, es) ==> (Recorded(orig', es) <==> AgreeAt(orig, orig', es))
  {
    if es != [] && Recorded(orig, es) {
      RecordedAfter(orig, orig', es[1..]);
      assert AgreeAt(orig, orig', es) <==>
        (es[0].Break? ==> orig'[es[0].addr] == orig[es[0].addr]) && AgreeAt(orig, orig', es[1..]);
      if es[0].Break? {
        var a := es[0].addr;
        PatchedAt(orig, es[1..], a);
        PatchedAt(orig', es[1..], a);
        if AgreeAt(orig, orig', es[1..]) && BreaksAt(es[1..], a) {
          var i :| 0 <= i < |es[1..]| && es[1..][i].Break? && es[1..][i].addr == a;
          assert orig'[es[1..][i].addr] == orig[es[1..][i].addr];
        }
      }
    }
  }

  /** Entry `k` is the newest at this address. */
  predicate NewestAt(es: seq<Entry>, k: nat, a: nat) {
    k < |es| && es[k].Break? && es[k].addr == a && forall i | 0 <= i < k :: es[i].Break? ==> es[i].addr != a
  }

  // ---------- deleting ----------

  lemma RestoredStep(m: seq<byte>, es: seq<Entry>)
    requires InRange(|m|, es)
    ensures es == [] ==> Restored(m, es) == m
    ensures es != [] ==>
      InRange(|m|, es[1..]) && (es[0].Break? ==> es[0].addr < |m|)
          && Restored(m, es) == Undo(Restored(m, es[1..]), es[0])
  {
  }

  lemma NoneInRange(n: nat, es: seq<Entry>)
    requires es == []
    ensures InRange(n, es)
  {
  }

  lemma InRangeAt(n: nat, es: seq<Entry>, k: nat)
    requires InRange(n, es) && k < |es|
    ensures es[k].Break? ==> es[k].addr < n
  {
  }

  lemma DeleteKeepsInRange(n: nat, es: seq<Entry>, k: nat)
    requires InRange(n, es) && k < |es|
    ensures InRange(n, Without(es, k))
  {
  }

  /** Deleting entry `k` leaves the others patched exactly if it held a trap or had its address alone. */
  lemma DeleteKeepsOverlay(orig: seq<byte>, es: seq<Entry>, k: nat)
    requires InRange(|orig|, es) && Recorded(orig, es) && k < |es|
    ensures InRange(|orig|, Without(es, k))
    ensures Undo(Patched(orig, es), es[k]) == Patched(orig, Without(es, k))
      <==> (es[k].Break? ==> es[k].ori_byte == INT3_CODE || !BreaksAt(Without(es, k), es[k].addr))
    ensures (es[k].Break? ==> es[k].ori_byte == INT3_CODE || !BreaksAt(Without(es, k), es[k].addr))
      ==> Recorded(orig, Without(es, k))
  {
    var rest := Without(es, k);
    var undone := Undo(Patched(orig, es), es[k]);
    if es[k].Break? {
      RecordedAt(orig, es, k);
    }
    forall a | 0 <= a < |orig|
      ensures Patched(orig, rest)[a] == if BreaksAt(rest, a) then INT3_CODE else orig[a]
      ensures undone[a] == if es[k].Break? && es[k].addr == a then es[k].ori_byte
                           else if BreaksAt(rest, a) then INT3_CODE else orig[a]
    {
      PatchedAt(orig, rest, a);
      PatchedAt(orig, es, a);
      BreaksWithout(es, k, a);
    }
    if es[k].Break? && BreaksAt(rest, es[k].addr) {
      assert Patched(orig, rest)[es[k].addr] == INT3_CODE;
    }
    if es[k].Break? && !BreaksAt(rest, es[k].addr) {
      OlderRemain(es, k, es[k].addr);
    }
    if es[k].Break? ==> es[k].ori_byte == INT3_CODE || !BreaksAt(rest, es[k].addr) {
      forall a | 0 <= a < |orig|
        ensures undone[a] == Patched(orig, rest)[a]
      {
        if es[k].Break? && a == es[k].addr && !BreaksAt(rest, a) {
          assert es[k].ori_byte == orig[a];
        }
      }
      assert undone == Patched(orig, rest);
      DeleteKeepsRecord(orig, es, k);
    }
  }

  lemma BreaksWithout(es: seq<Entry>, k: nat, a: nat)
    requires k < |es|
    ensures BreaksAt(es, a) <==> (es[k].Break? && es[k].addr == a) || BreaksAt(Without(es, k), a)
  {
    var rest := Without(es, k);
    if BreaksAt(es, a) {
      var i :| 0 <= i < |es| && es[i].Break? && es[i].addr == a;
      assert i != k ==> rest[if i < k then i else i - 1] == es[i];
    }
    if BreaksAt(rest, a) {
      var i :| 0 <= i < |rest| && rest[i].Break? && rest[i].addr == a;
      assert es[if i < k then i else i + 1] == rest[i];
    }
  }

  lemma OlderRemain(es: seq<Entry>, k: nat, a: nat)
    requires k < |es|
    ensures BreaksAt(es[k + 1..], a) ==> BreaksAt(Without(es, k), a)
  {
    if BreaksAt(es[k + 1..], a) {
      var i :| 0 <= i < |es[k + 1..]| && es[k + 1..][i].Break? && es[k + 1..][i].addr == a;
      assert Without(es, k)[k + i] == es[k + 1..][i];
    }
  }

  lemma DeleteKeepsRecord(orig: seq<byte>, es: seq<Entry>, k: nat)
    requires InRange(|orig|, es) && Recorded(orig, es) && k < |es|
    requires es[k].Break? ==> es[k].ori_byte == INT3_CODE || !BreaksAt(Without(es, k), es[k].addr)
    ensures InRange(|orig|, Without(es, k)) && Recorded(orig, Without(es, k))
  {
    var rest := Without(es, k);
    if es[k].Break? {
      RecordedAt(orig, es, k);
    }
    forall i | 0 <= i < |rest| && rest[i].Break?
      ensures rest[i].ori_byte == if BreaksAt(rest[i + 1..], rest[i].addr) then INT3_CODE else orig[rest[i].addr]
    {
      if i >= k {
        RecordedAt(orig, es, i + 1);
        assert rest[i + 1..] == es[i + 2..];
      } else {
        NewerKeepsRecord(orig, es, k, i);
      }
    }
    RecordedIf(orig, rest);
  }

  lemma WithoutOlder(es: seq<Entry>, k: nat, i: nat)
    requires i < k < |es| && es[i].Break?
    ensures var older, kk := es[i + 1..], k - i - 1;
      Without(es, k)[i + 1..] == Without(older, kk) && older[kk] == es[k] && older[kk + 1..] == es[k + 1..]
    ensures BreaksAt(Without(es, k), es[i].addr)
  {
    assert Without(es, k)[i] == es[i];
  }

  lemma NewerKeepsRecord(orig: seq<byte>, es: seq<Entry>, k: nat, i: nat)
    requires InRange(|orig|, es) && Recorded(orig, es) && i < k < |es| && es[i].Break?
    requires es[k].Break? ==> es[k].ori_byte == INT3_CODE || !BreaksAt(Without(es, k), es[k].addr)
    ensures es[i].ori_byte == if BreaksAt(Without(es, k)[i + 1..], es[i].addr) then INT3_CODE else orig[es[i].addr]
  {
    var older, kk, a := es[i + 1..], k - i - 1, es[i].addr;
    WithoutOlder(es, k, i);
    hide Recorded, InRange, BreaksAt, Without;
    RecordedAt(orig, es, i);
    BreaksWithout(older, kk, a);
    if es[k].Break? && es[k].addr == a && !BreaksAt(Without(older, kk), a) {
      RecordedAt(orig, es, k);
      OlderRemain(older, kk, a);
    }
  }

  /** No byte other than a trap is recorded under two entries of one address. */
  predicate NoLostByte(orig: seq<byte>, es: seq<Entry>)
    requires InRange(|orig|, es)
  {
    forall i, j | 0 <= i < j < |es| && es[i].Break? && es[j].Break? && es[i].addr == es[j].addr ::
      orig[es[i].addr] == INT3_CODE
  }

  /** Undoing oldest first ends at the newest entry of each address. */
  lemma {:induction false} RestoredAt(m: seq<byte>, orig: seq<byte>, es: seq<Entry>, a: nat)
    requires |m| == |orig| && InRange(|orig|, es) && Recorded(orig, es) && a < |orig|
    ensures !BreaksAt(es, a) ==> Restored(m, es)[a] == m[a]
    ensures BreaksAt(es, a) ==> (Restored(m, es)[a] == orig[a] <==> !TwiceAt(es, a) || orig[a] == INT3_CODE)
  {
    if es != [] {
      RestoredAt(m, orig, es[1..], a);
      Older(es, a);
      OlderTwice(es, a);
      if es[0].Break? && es[0].addr == a {
        RecordedAt(orig, es, 0);
      }
    }
  }

  predicate TwiceAt(es: seq<Entry>, a: nat) {
    exists i, j | 0 <= i < j < |es| :: es[i].Break? && es[j].Break? && es[i].addr == a && es[j].addr == a
  }

  lemma OlderTwice(es: seq<Entry>, a: nat)
    requires es != []
    ensures TwiceAt(es, a) <==> (es[0].Break? && es[0].addr == a && BreaksAt(es[1..], a)) || TwiceAt(es[1..], a)
  {
    if TwiceAt(es, a) {
      var i, j :| 0 <= i < j < |es| && es[i].Break? && es[j].Break? && es[i].addr == a && es[j].addr == a;
      assert es[1..][j - 1] == es[j];
      if i > 0 {
        assert es[1..][i - 1] == es[i];
      }
    }
    if TwiceAt(es[1..], a) {
      var i, j :| 0 <= i < j < |es[1..]| && es[1..][i].Break? && es[1..][j].Break? && es[1..][i].addr == a
          && es[1..][j].addr == a;
      assert es[i + 1] == es[1..][i] && es[j + 1] == es[1..][j];
    }
    if es[0].Break? && es[0].addr == a && BreaksAt(es[1..], a) {
      var i :| 0 <= i < |es[1..]| && es[1..][i].Break? && es[1..][i].addr == a;
      assert es[i + 1] == es[1..][i];
    }
  }

  /** Deleting all breakpoints gives the original memory back exactly if no original byte was recorded over. */
  lemma DeleteAllRestores(orig: seq<byte>, es: seq<Entry>)
    requires InRange(|orig|, es) && Recorded(orig, es)
    ensures Restored(Patched(orig, es), es) == orig <==> NoLostByte(orig, es)
  {
    var r := Restored(Patched(orig, es), es);
    forall a | 0 <= a < |orig|
      ensures r[a] == orig[a] <==> !TwiceAt(es, a) || orig[a] == INT3_CODE
    {
      RestoredAt(Patched(orig, es), orig, es, a);
      PatchedAt(orig, es, a);
      TwiceBreaks(es, a);
    }
    if r == orig {
      forall i, j | 0 <= i < j < |es| && es[i].Break? && es[j].Break? && es[i].addr == es[j].addr
        ensures orig[es[i].addr] == INT3_CODE
      {
        assert TwiceAt(es, es[i].addr);
      }
    }
    if NoLostByte(orig, es) {
      forall a | 0 <= a < |orig|
        ensures r[a] == orig[a]
      {
        if TwiceAt(es, a) {
          var i, j :| 0 <= i < j < |es| && es[i].Break? && es[j].Break? && es[i].addr == a && es[j].addr == a;
          assert orig[es[i].addr] == INT3_CODE;
        }
      }
      assert r == orig;
    }
  }

  lemma TwiceBreaks(es: seq<Entry>, a: nat)
    ensures TwiceAt(es, a) ==> BreaksAt(es, a)
  {
    if TwiceAt(es, a) {
      var i, j :| 0 <= i < j < |es| && es[i].Break? && es[j].Break? && es[i].addr == a && es[j].addr == a;
      assert es[i].addr == a;
    }
  }

  /** Two breakpoints on one address: deleting all of them leaves the trap behind. */
  lemma TrapLeftBehind()
    ensures var orig: seq<byte> := [0x90];
      var es := [Break(0, INT3_CODE), Break(0, 0x90)];
      && Recorded(orig, es) && Restored(Patched(orig, es), es) == [INT3_CODE] && Masked(Patched(orig, es), es) == orig
  {
    var orig: seq<byte> := [0x90];
    var es := [Break(0, INT3_CODE), Break(0, 0x90)];
    assert es[1..] == [Break(0, 0x90)] && es[1..][1..] == [];
    MaskRestores(orig, es);
  }

  /** Deleting the older of two leaves the address unwatched while the newer one is still live. */
  lemma OlderDeletedAlone()
    ensures var orig: seq<byte> := [0x90];
      var es := [Break(0, INT3_CODE), Break(0, 0x90)];
      && Recorded(orig, es) && Undo(Patched(orig, es), es[1]) == orig && BreaksAt(Without(es, 1), 0)
  {
    var orig: seq<byte> := [0x90];
    var es := [Break(0, INT3_CODE), Break(0, 0x90)];
    assert es[1..] == [Break(0, 0x90)] && es[1..][1..] == [];
    assert Without(es, 1)[0] == es[0];
  }

  // ---------- whole sessions ----------

  /** What the user, the running guest and the monitor do: stores are the guest's, `Hit` is the stop at a trap. */
  datatype Command =
    | SetAt(addr: nat)
    | SetWatch(val: Option<uint32>)
    | Delete(no: int)
    | Mask
    | Resume
    | Hit(addr: nat)
    | GuestStore(addr: nat, value: byte)

  /** Memory, the live entries with their numbers, newest first, and the numbers that are free. */
  datatype Session = Session(m: seq<byte>, es: seq<Entry>, live: seq<int>, idle: seq<int>)

  predicate Fits(s: Session) {
    InRange(|s.m|, s.es) && |s.es| == |s.live|
  }

  /** The first position of `no`, or the length. */
  function Position(live: seq<int>, no: int): (k: nat)
    ensures k <= |live| && (k < |live| ==> live[k] == no) && (k == |live| ==> no !in live)
  {
    if live == [] || live[0] == no then 0 else 1 + Position(live[1..], no)
  }

  /** The newest entry at an address, or the length. */
  function Newest(es: seq<Entry>, a: nat): (k: nat)
    ensures k <= |es| && (k < |es| ==> NewestAt(es, k, a))
    ensures k == |es| ==> forall i | 0 <= i < |es| :: es[i].Break? ==> es[i].addr != a
  {
    if es == [] || (es[0].Break? && es[0].addr == a) then 0 else 1 + Newest(es[1..], a)
  }

  predicate Addressed(n: nat, c: Command) {
    c.SetAt? || c.GuestStore? ==> c.addr < n
  }

  /** An entry can be taken from the pool when the command needs one. */
  predicate Room(s: Session, c: Command) {
    c.SetAt? || c.SetWatch? ==> s.idle != []
  }

  /** What each command does to memory, live entries and numbers. */
  function Step(s: Session, c: Command): (t: Session)
    requires Fits(s) && Addressed(|s.m|, c) && Room(s, c)
    ensures Fits(t) && |t.m| == |s.m|
  {
    match c
    case SetAt(a) => Session(s.m[a := INT3_CODE], [Break(a, s.m[a])] + s.es, [s.idle[0]] + s.live, s.idle[1..])
    case SetWatch(val) => if val.None? then s else Session(s.m, [Watch] + s.es, [s.idle[0]] + s.live, s.idle[1..])
    case Delete(no) =>
      var k := Position(s.live, no);
      if k < |s.es| then Session(Undo(s.m, s.es[k]), Without(s.es, k), Without(s.live, k), [no] + s.idle) else s
    case Mask => s.(m := Masked(s.m, s.es))
    case Resume => s.(m := Resumed(s.m, s.es))
    case Hit(a) => var k := Newest(s.es, a); if k < |s.es| then s.(m := Undo(s.m, s.es[k])) else s
    case GuestStore(a, v) => s.(m := s.m[a := v])
  }

  function Run(s: Session, cs: seq<Command>): (t: Session)
    requires Fits(s) && Runnable(s, cs)
    ensures Fits(t) && |t.m| == |s.m|
    decreases |cs|
  {
    if cs == [] then s else Run(Step(s, cs[0]), cs[1..])
  }

  predicate Runnable(s: Session, cs: seq<Command>)
    requires Fits(s)
    decreases |cs|
  {
    cs == [] || (Addressed(|s.m|, cs[0]) && Room(s, cs[0]) && Runnable(Step(s, cs[0]), cs[1..]))
  }

  /** The memory that the guest means: its own stores and nothing else. */
  function GuestAfter(orig: seq<byte>, cs: seq<Command>): (g: seq<byte>)
    ensures |g| == |orig|
    decreases |cs|
  {
    if cs == [] then orig else GuestAfter(Meant(orig, cs[0]), cs[1..])
  }

  function Meant(orig: seq<byte>, c: Command): (g: seq<byte>)
    ensures |g| == |orig|
  {
    if c.GuestStore? && c.addr < |orig| then orig[c.addr := c.value] else orig
  }

  // ---------- what memory shows ----------

  /** Every byte is the guest's own or, at a live address, the trap. */
  predicate MemShown(orig: seq<byte>, s: Session) {
    && |orig| == |s.m| && Fits(s)
    && forall a | 0 <= a < |orig| :: s.m[a] == orig[a] || (s.m[a] == INT3_CODE && BreaksAt(s.es, a))
  }

  /** Every entry holds the guest's byte. */
  predicate Holds(orig: seq<byte>, es: seq<Entry>)
    requires InRange(|orig|, es)
  {
    forall i | 0 <= i < |es| && es[i].Break? :: es[i].ori_byte == orig[es[i].addr]
  }

  predicate Sound(orig: seq<byte>, s: Session) {
    MemShown(orig, s) && Holds(orig, s.es)
  }

  /** No breakpoint where memory shows a trap instead of the guest's byte, no store that changes a byte under one. */
  predicate Clean(orig: seq<byte>, s: Session, c: Command)
    requires |orig| == |s.m| && Addressed(|s.m|, c)
  {
    match c
    case SetAt(a) => s.m[a] == orig[a]
    case GuestStore(a, v) => BreaksAt(s.es, a) ==> v == orig[a]
    case _ => true
  }

  lemma HoldsCons(orig: seq<byte>, e: Entry, es: seq<Entry>)
    requires InRange(|orig|, es) && Holds(orig, es) && (e.Break? ==> e.addr < |orig|)
    ensures InRange(|orig|, [e] + es)
    ensures Holds(orig, [e] + es) <==> (e.Break? ==> e.ori_byte == orig[e.addr])
  {
    var es' := [e] + es;
    InRangeCons(|orig|, e, es);
    assert forall i | 0 < i < |es'| :: es'[i] == es[i - 1];
    assert es'[0] == e;
  }

  lemma HoldsWithout(orig: seq<byte>, es: seq<Entry>, k: nat)
    requires InRange(|orig|, es) && Holds(orig, es) && k < |es|
    ensures InRange(|orig|, Without(es, k)) && Holds(orig, Without(es, k))
    ensures es[k].Break? ==> es[k].addr < |orig| && es[k].ori_byte == orig[es[k].addr]
  {
  }

  /** A newer entry only adds its own address. */
  lemma BreaksCons(e: Entry, es: seq<Entry>, a: nat)
    ensures BreaksAt([e] + es, a) <==> (e.Break? && e.addr == a) || BreaksAt(es, a)
  {
    Older([e] + es, a);
    assert ([e] + es)[1..] == es;
  }

  lemma SetSound(orig: seq<byte>, s: Session, a: nat)
    requires Sound(orig, s) && a < |orig| && s.idle != []
    ensures Sound(orig, Step(s, SetAt(a))) <==> s.m[a] == orig[a]
  {
    hide Holds, InRange;
    var e := Break(a, s.m[a]);
    HoldsCons(orig, e, s.es);
    forall x
      ensures BreaksAt([e] + s.es, x) <==> x == a || BreaksAt(s.es, x)
    {
      BreaksCons(e, s.es, x);
    }
  }

  lemma WatchSound(orig: seq<byte>, s: Session, val: Option<uint32>)
    requires Sound(orig, s) && s.idle != []
    ensures Sound(orig, Step(s, SetWatch(val)))
  {
    hide Holds, InRange;
    HoldsCons(orig, Watch, s.es);
    forall x
      ensures BreaksAt([Watch] + s.es, x) <==> BreaksAt(s.es, x)
    {
      BreaksCons(Watch, s.es, x);
    }
  }

  lemma DeleteSound(orig: seq<byte>, s: Session, no: int)
    requires Sound(orig, s)
    ensures Sound(orig, Step(s, Delete(no)))
  {
    hide Holds, InRange, BreaksAt, Without;
    var k := Position(s.live, no);
    if k < |s.es| {
      HoldsWithout(orig, s.es, k);
      forall x
        ensures BreaksAt(s.es, x) <==> (s.es[k].Break? && s.es[k].addr == x) || BreaksAt(Without(s.es, k), x)
      {
        BreaksWithout(s.es, k, x);
      }
    }
  }

  /** Undoing in either order shows the guest's byte at every live address. */
  lemma {:induction false} UndoneAt(m: seq<byte>, orig: seq<byte>, es: seq<Entry>, a: nat)
    requires |m| == |orig| && InRange(|orig|, es) && Holds(orig, es) && a < |orig|
    ensures Masked(m, es)[a] == (if BreaksAt(es, a) then orig[a] else m[a])
    ensures Restored(m, es)[a] == (if BreaksAt(es, a) then orig[a] else m[a])
    decreases |es|
  {
    if es != [] {
      var m' := Undo(m, es[0]);
      assert Holds(orig, es[1..]);
      UndoneAt(m', orig, es[1..], a);
      UndoneAt(m, orig, es[1..], a);
      Older(es, a);
    }
  }

  /** From a sound state masking and deleting all give the guest's memory; resuming traps the live addresses. */
  lemma SoundEnds(orig: seq<byte>, s: Session)
    requires Sound(orig, s)
    ensures Masked(s.m, s.es) == orig && Restored(s.m, s.es) == orig && Resumed(s.m, s.es) == Patched(orig, s.es)
  {
    hide Holds, InRange, BreaksAt;
    forall a | 0 <= a < |orig|
      ensures Masked(s.m, s.es)[a] == orig[a] && Restored(s.m, s.es)[a] == orig[a]
      ensures Resumed(s.m, s.es)[a] == Patched(orig, s.es)[a]
    {
      UndoneAt(s.m, orig, s.es, a);
      ResumedAt(s.m, s.es, a);
      PatchedAt(orig, s.es, a);
    }
  }

  lemma ResumeSound(orig: seq<byte>, s: Session)
    requires Sound(orig, s)
    ensures Sound(orig, Step(s, Resume))
  {
    hide Holds, InRange, BreaksAt;
    SoundEnds(orig, s);
    forall a | 0 <= a < |orig|
      ensures Patched(orig, s.es)[a] == if BreaksAt(s.es, a) then INT3_CODE else orig[a]
    {
      PatchedAt(orig, s.es, a);
    }
  }

  lemma HitSound(orig: seq<byte>, s: Session, a: nat)
    requires Sound(orig, s)
    ensures Sound(orig, Step(s, Hit(a)))
  {
    hide BreaksAt;
  }

  lemma StoreSound(orig: seq<byte>, s: Session, a: nat, v: byte)
    requires Sound(orig, s) && a < |orig|
    ensures Sound(orig[a := v], Step(s, GuestStore(a, v))) <==> (BreaksAt(s.es, a) ==> v == orig[a])
  {
    if BreaksAt(s.es, a) {
      var i :| 0 <= i < |s.es| && s.es[i].Break? && s.es[i].addr == a;
      assert s.es[i].ori_byte == orig[a];
    }
  }

  /** One command keeps a sound state sound exactly if it is clean. */
  lemma StepSound(orig: seq<byte>, s: Session, c: Command)
    requires Sound(orig, s) && Addressed(|s.m|, c) && Room(s, c)
    ensures Sound(Meant(orig, c), Step(s, c)) <==> Clean(orig, s, c)
  {
    hide Sound, BreaksAt, Step;
    SameSize(orig, s);
    match c
    case SetAt(a) => SetSound(orig, s, a);
    case SetWatch(val) => WatchSound(orig, s, val);
    case Delete(no) => DeleteSound(orig, s, no);
    case Mask => MaskSound(orig, s);
    case Resume => ResumeSound(orig, s);
    case Hit(a) => HitSound(orig, s, a);
    case GuestStore(a, v) => StoreSound(orig, s, a, v);
  }

  lemma MaskSound(orig: seq<byte>, s: Session)
    requires Sound(orig, s)
    ensures Sound(orig, Step(s, Mask))
  {
    SoundEnds(orig, s);
  }

  lemma SameSize(orig: seq<byte>, s: Session)
    requires Sound(orig, s)
    ensures |orig| == |s.m| && Fits(s)
  {
  }

  // ---------- why entries must hold the guest's bytes ----------

  /** The monitor's own commands. */
  predicate Monitoring(cs: seq<Command>) {
    forall i | 0 <= i < |cs| :: cs[i].Delete? || cs[i].Mask? || cs[i].Resume? || cs[i].Hit?
  }

  predicate OnlyDeletes(cs: seq<Command>) {
    forall i | 0 <= i < |cs| :: cs[i].Delete?
  }

  /** Memory shows the guest's bytes now and whatever the monitor does next. */
  ghost predicate Safe(orig: seq<byte>, s: Session)
    requires Fits(s)
  {
    forall cs | Monitoring(cs) && Runnable(s, cs) :: MemShown(orig, Run(s, cs))
  }

  lemma PositionIs(live: seq<int>, k: nat)
    requires NoDup(live) && k < |live|
    ensures Position(live, live[k]) == k
  {
  }

  lemma NothingRun(s: Session)
    requires Fits(s)
    ensures Runnable(s, []) && Run(s, []) == s
  {
  }

  lemma RunsFirst(s: Session, c: Command, cs: seq<Command>)
    requires Fits(s) && Addressed(|s.m|, c) && Room(s, c) && Runnable(Step(s, c), cs)
    ensures Runnable(s, [c] + cs) && Run(s, [c] + cs) == Run(Step(s, c), cs)
  {
    assert ([c] + cs)[1..] == cs;
  }

  /** Deleting the others first and the wrong entry last leaves its wrong byte where nothing is live. */
  lemma {:induction false} WrongByteShows(orig: seq<byte>, s: Session, i: nat) returns (cs: seq<Command>)
    requires |orig| == |s.m| && Fits(s) && NoDup(s.live)
    requires i < |s.es| && s.es[i].Break? && s.es[i].ori_byte != orig[s.es[i].addr]
    ensures OnlyDeletes(cs) && Runnable(s, cs) && !MemShown(orig, Run(s, cs))
    decreases |s.es|
  {
    var k := if |s.es| == 1 || i != 0 then 0 else 1;
    var c := Delete(s.live[k]);
    PositionIs(s.live, k);
    WithoutElems(s.live, k);
    InRangeAt(|s.m|, s.es, k);
    var t := Step(s, c);
    if |s.es| == 1 {
      NothingRun(t);
      assert t.es == [] && t.m[s.es[0].addr] == s.es[0].ori_byte;
      RunsFirst(s, c, []);
      cs := [c] + [];
    } else {
      var rest := WrongByteShows(orig, t, if i == 0 then 0 else i - 1);
      RunsFirst(s, c, rest);
      cs := [c] + rest;
    }
  }

  lemma {:induction false} MonitoringKeepsSound(orig: seq<byte>, s: Session, cs: seq<Command>)
    requires Sound(orig, s) && Runnable(s, cs) && Monitoring(cs)
    ensures Sound(orig, Run(s, cs))
    decreases |cs|
  {
    hide Sound, Step;
    SameSize(orig, s);
    if cs != [] {
      StepSound(orig, s, cs[0]);
      MonitoringKeepsSound(orig, Step(s, cs[0]), cs[1..]);
    }
  }

  /** Memory is safe exactly if it shows the guest's bytes and every entry holds the guest's byte. */
  lemma SafeIsSound(orig: seq<byte>, s: Session)
    requires |orig| == |s.m| && Fits(s) && NoDup(s.live)
    ensures Safe(orig, s) <==> Sound(orig, s)
  {
    if Sound(orig, s) {
      forall cs | Monitoring(cs) && Runnable(s, cs)
        ensures MemShown(orig, Run(s, cs))
      {
        MonitoringKeepsSound(orig, s, cs);
      }
    } else {
      NothingRun(s);
      if MemShown(orig, s) {
        var i :| 0 <= i < |s.es| && s.es[i].Break? && s.es[i].ori_byte != orig[s.es[i].addr];
        var cs := WrongByteShows(orig, s, i);
        assert Monitoring(cs);
      }
    }
  }

  // ---------- sessions ----------

  /** No number is given out twice. */
  ghost predicate Numbered(s: Session) {
    NoDup(s.live) && NoDup(s.idle) && forall x | x in s.live :: x !in s.idle
  }

  lemma StepKeepsNumbers(s: Session, c: Command)
    requires Fits(s) && Numbered(s) && Addressed(|s.m|, c) && Room(s, c)
    ensures Numbered(Step(s, c))
  {
    hide InRange, Masked, Resumed, Undo;
    match c
    case SetAt(a) => NumberTaken(s.live, s.idle);
    case SetWatch(val) => NumberTaken(s.live, s.idle);
    case Delete(no) =>
      var k := Position(s.live, no);
      if k < |s.es| {
        NumberGiven(s.live, s.idle, k);
      }
    case _ =>
  }

  lemma NumberTaken(live: seq<int>, idle: seq<int>)
    requires NoDup(live) && NoDup(idle) && (forall x | x in live :: x !in idle) && idle != []
    ensures NoDup([idle[0]] + live) && NoDup(idle[1..]) && forall x | x in [idle[0]] + live :: x !in idle[1..]
  {
    FirstElems(idle);
    ConsElems(idle[0], live);
  }

  lemma NumberGiven(live: seq<int>, idle: seq<int>, k: nat)
    requires NoDup(live) && NoDup(idle) && (forall x | x in live :: x !in idle) && k < |live|
    ensures NoDup(Without(live, k)) && NoDup([live[k]] + idle)
    ensures forall x | x in Without(live, k) :: x !in [live[k]] + idle
  {
    WithoutElems(live, k);
    ConsElems(live[k], idle);
    forall x | x in Without(live, k)
      ensures x in live && x != live[k]
    {
      InElems(Without(live, k), x);
      InElems(live, x);
    }
  }

  lemma {:induction false} RunKeepsNumbers(s: Session, cs: seq<Command>)
    requires Fits(s) && Numbered(s) && Runnable(s, cs)
    ensures Numbered(Run(s, cs))
    decreases |cs|
  {
    hide Numbered, Step;
    if cs != [] {
      StepKeepsNumbers(s, cs[0]);
      RunKeepsNumbers(Step(s, cs[0]), cs[1..]);
    }
  }

  /** Every command of the session is clean when it comes. */
  predicate CleanRun(orig: seq<byte>, s: Session, cs: seq<Command>)
    requires |orig| == |s.m| && Fits(s) && Runnable(s, cs)
    decreases |cs|
  {
    cs == [] || (Clean(orig, s, cs[0]) && CleanRun(Meant(orig, cs[0]), Step(s, cs[0]), cs[1..]))
  }

  /** Memory is safe after every command, for what the guest means by then. */
  ghost predicate SafeThroughout(orig: seq<byte>, s: Session, cs: seq<Command>)
    requires Fits(s) && Runnable(s, cs)
    decreases |cs|
  {
    Safe(orig, s) && (cs == [] || SafeThroughout(Meant(orig, cs[0]), Step(s, cs[0]), cs[1..]))
  }

  /**
   * Along any session of users setting and deleting, stops at traps, masking, resuming and guest stores: memory
   * shows the guest's bytes at every moment and under every continuation by the monitor exactly if every command
   * is clean.
   */
  lemma {:induction false} SessionIsSafe(orig: seq<byte>, s: Session, cs: seq<Command>)
    requires Sound(orig, s) && Numbered(s) && Runnable(s, cs)
    ensures SafeThroughout(orig, s, cs) <==> CleanRun(orig, s, cs)
    ensures CleanRun(orig, s, cs) ==> Sound(GuestAfter(orig, cs), Run(s, cs))
    decreases |cs|
  {
    hide Sound, Clean, Step, Safe;
    SameSize(orig, s);
    SafeIsSound(orig, s);
    if cs != [] {
      var orig', t := Meant(orig, cs[0]), Step(s, cs[0]);
      StepSound(orig, s, cs[0]);
      StepKeepsNumbers(s, cs[0]);
      if Clean(orig, s, cs[0]) {
        SessionIsSafe(orig', t, cs[1..]);
      } else {
        SafeIsSound(orig', t);
      }
    }
  }

  /** After a clean session deleting all, or masking, gives the guest's memory; resuming traps the live addresses. */
  lemma SessionEnds(orig: seq<byte>, s: Session, cs: seq<Command>)
    requires Sound(orig, s) && Numbered(s) && Runnable(s, cs) && CleanRun(orig, s, cs)
    ensures var t, g := Run(s, cs), GuestAfter(orig, cs);
      && Restored(t.m, t.es) == g && Masked(t.m, t.es) == g
      && forall a | 0 <= a < |g| :: Resumed(t.m, t.es)[a] == if BreaksAt(t.es, a) then 0xf1 else g[a]
  {
    hide Sound, InRange, BreaksAt, Masked, Restored, Resumed, Patched;
    SameSize(orig, s);
    SessionIsSafe(orig, s, cs);
    var t, g := Run(s, cs), GuestAfter(orig, cs);
    SameSize(g, t);
    SoundEnds(g, t);
    forall a | 0 <= a < |g|
      ensures Resumed(t.m, t.es)[a] == if BreaksAt(t.es, a) then INT3_CODE else g[a]
    {
      PatchedAt(g, t.es, a);
    }
  }

  // ---------- the exact overlay ----------

  /** Memory is the guest's with the trap at every live address. */
  predicate Exact(orig: seq<byte>, s: Session) {
    Sound(orig, s) && s.m == Patched(orig, s.es)
  }

  predicate AllTrapped(s: Session)
    requires Fits(s)
  {
    forall i | 0 <= i < |s.es| && s.es[i].Break? :: s.m[s.es[i].addr] == INT3_CODE
  }

  lemma ExactIsTrapped(orig: seq<byte>, s: Session)
    requires Sound(orig, s)
    ensures Exact(orig, s) <==> AllTrapped(s)
  {
    hide Holds;
    forall a | 0 <= a < |orig|
      ensures Patched(orig, s.es)[a] == if BreaksAt(s.es, a) then INT3_CODE else orig[a]
    {
      PatchedAt(orig, s.es, a);
    }
    if AllTrapped(s) {
      forall a | 0 <= a < |orig|
        ensures s.m[a] == Patched(orig, s.es)[a]
      {
      }
    } else {
      var i :| 0 <= i < |s.es| && s.es[i].Break? && s.m[s.es[i].addr] != INT3_CODE;
      assert BreaksAt(s.es, s.es[i].addr);
    }
  }

  /** What a command must not do to leave a live address without its trap. */
  predicate KeepsExact(orig: seq<byte>, s: Session, c: Command)
    requires |orig| == |s.m| && Fits(s) && Addressed(|s.m|, c)
  {
    match c
    case SetAt(a) => s.m[a] == orig[a]
    case SetWatch(_) => true
    case Delete(no) =>
      var k := Position(s.live, no);
      k < |s.es| && s.es[k].Break? && BreaksAt(Without(s.es, k), s.es[k].addr) ==> orig[s.es[k].addr] == INT3_CODE
    case Mask => forall i | 0 <= i < |s.es| && s.es[i].Break? :: orig[s.es[i].addr] == INT3_CODE
    case Resume => true
    case Hit(a) => BreaksAt(s.es, a) && a < |orig| ==> orig[a] == INT3_CODE
    case GuestStore(a, v) => BreaksAt(s.es, a) ==> v == orig[a] == INT3_CODE
  }

  lemma DeleteExact(orig: seq<byte>, s: Session, no: int)
    requires Exact(orig, s)
    ensures AllTrapped(Step(s, Delete(no))) <==> KeepsExact(orig, s, Delete(no))
  {
    hide Sound;
    ExactIsTrapped(orig, s);
    var k := Position(s.live, no);
    if k < |s.es| {
      SoundByte(orig, s, k);
      var rest, t := Without(s.es, k), Step(s, Delete(no));
      assert forall i | 0 <= i < |rest| :: rest[i] == s.es[if i < k then i else i + 1];
      if s.es[k].Break? && BreaksAt(rest, s.es[k].addr) {
        var i :| 0 <= i < |rest| && rest[i].Break? && rest[i].addr == s.es[k].addr;
        assert t.es[i] == rest[i];
      }
    }
  }

  lemma SoundByte(orig: seq<byte>, s: Session, k: nat)
    requires Sound(orig, s) && k < |s.es|
    ensures |orig| == |s.m| && Fits(s) && (s.es[k].Break? ==> s.es[k].addr < |s.m|)
    ensures s.es[k].Break? ==> s.es[k].ori_byte == orig[s.es[k].addr]
  {
  }

  lemma MaskExact(orig: seq<byte>, s: Session)
    requires Exact(orig, s)
    ensures AllTrapped(Step(s, Mask)) <==> KeepsExact(orig, s, Mask)
    ensures AllTrapped(Step(s, Resume))
  {
    hide Sound, Masked, Resumed;
    SameSize(orig, s);
    SoundEnds(orig, s);
    forall i | 0 <= i < |s.es| && s.es[i].Break?
      ensures Patched(orig, s.es)[s.es[i].addr] == INT3_CODE
    {
      PatchedAt(orig, s.es, s.es[i].addr);
    }
  }

  lemma HitExact(orig: seq<byte>, s: Session, a: nat)
    requires Exact(orig, s)
    ensures AllTrapped(Step(s, Hit(a))) <==> KeepsExact(orig, s, Hit(a))
  {
    hide Sound;
    ExactIsTrapped(orig, s);
    var k := Newest(s.es, a);
    if k < |s.es| {
      SoundByte(orig, s, k);
    }
  }

  /** One command keeps the exact overlay exactly under its condition. */
  lemma StepExact(orig: seq<byte>, s: Session, c: Command)
    requires Exact(orig, s) && Addressed(|s.m|, c) && Room(s, c)
    ensures |orig| == |s.m| && Fits(s)
    ensures Exact(Meant(orig, c), Step(s, c)) <==> KeepsExact(orig, s, c)
  {
    hide Sound, BreaksAt, Masked, Resumed, Patched;
    SameSize(orig, s);
    var orig', t := Meant(orig, c), Step(s, c);
    StepSound(orig, s, c);
    if Clean(orig, s, c) {
      ExactIsTrapped(orig, s);
      ExactIsTrapped(orig', t);
      match c
      case SetAt(a) => TrappedCons(s, Break(a, s.m[a]), t);
      case SetWatch(val) => if val.Some? { TrappedCons(s, Watch, t); }
      case Delete(no) => DeleteExact(orig, s, no);
      case Mask => MaskExact(orig, s);
      case Resume => MaskExact(orig, s);
      case Hit(a) => HitExact(orig, s, a);
      case GuestStore(a, v) => StoreTrapped(s, a, v);
    }
  }

  lemma TrappedCons(s: Session, e: Entry, t: Session)
    requires Fits(s) && Fits(t) && AllTrapped(s) && t.es == [e] + s.es
    requires t.m == if e.Break? && e.addr < |s.m| then s.m[e.addr := INT3_CODE] else s.m
    ensures AllTrapped(t)
  {
    assert forall i | 0 < i < |t.es| :: t.es[i] == s.es[i - 1];
  }

  lemma StoreTrapped(s: Session, a: nat, v: byte)
    requires Fits(s) && AllTrapped(s) && a < |s.m|
    ensures AllTrapped(Step(s, GuestStore(a, v))) <==> (BreaksAt(s.es, a) ==> v == INT3_CODE)
  {
    if BreaksAt(s.es, a) {
      var i :| 0 <= i < |s.es| && s.es[i].Break? && s.es[i].addr == a;
      assert Step(s, GuestStore(a, v)).m[s.es[i].addr] == v;
    }
  }

  predicate KeepsExactRun(orig: seq<byte>, s: Session, cs: seq<Command>)
    requires |orig| == |s.m| && Fits(s) && Runnable(s, cs)
    decreases |cs|
  {
    cs == [] || (KeepsExact(orig, s, cs[0]) && KeepsExactRun(Meant(orig, cs[0]), Step(s, cs[0]), cs[1..]))
  }

  predicate ExactThroughout(orig: seq<byte>, s: Session, cs: seq<Command>)
    requires Fits(s) && Runnable(s, cs)
    decreases |cs|
  {
    Exact(orig, s) && (cs == [] || ExactThroughout(Meant(orig, cs[0]), Step(s, cs[0]), cs[1..]))
  }

  lemma ExactIsSound(orig: seq<byte>, s: Session)
    requires Exact(orig, s)
    ensures Sound(orig, s) && |orig| == |s.m| && Fits(s)
  {
  }

  /** The exact overlay holds after every command exactly if every command keeps it. */
  lemma {:induction false} SessionIsExact(orig: seq<byte>, s: Session, cs: seq<Command>)
    requires Exact(orig, s) && Runnable(s, cs)
    ensures |orig| == |s.m|
    ensures ExactThroughout(orig, s, cs) <==> KeepsExactRun(orig, s, cs)
    ensures KeepsExactRun(orig, s, cs) ==> Exact(GuestAfter(orig, cs), Run(s, cs))
    decreases |cs|
  {
    hide Exact, KeepsExact, Step;
    ExactIsSound(orig, s);
    if cs != [] {
      StepExact(orig, s, cs[0]);
      if KeepsExact(orig, s, cs[0]) {
        SessionIsExact(Meant(orig, cs[0]), Step(s, cs[0]), cs[1..]);
      }
    }
  }

  // ---------- sessions with distinct live addresses ----------

  predicate OneEach(es: seq<Entry>) {
    forall i, j | 0 <= i < j < |es| && es[i].Break? && es[j].Break? :: es[i].addr != es[j].addr
  }

  /** Setting on fresh addresses, deleting, resuming, and stores off the breakpoints. */
  predicate Plain(s: Session, c: Command) {
    match c
    case SetAt(a) => !BreaksAt(s.es, a)
    case GuestStore(a, _) => !BreaksAt(s.es, a)
    case Mask => false
    case Hit(a) => !BreaksAt(s.es, a)
    case _ => true
  }

  predicate PlainRun(s: Session, cs: seq<Command>)
    requires Fits(s) && Runnable(s, cs)
    decreases |cs|
  {
    cs == [] || (Plain(s, cs[0]) && PlainRun(Step(s, cs[0]), cs[1..]))
  }

  lemma OneEachCons(es: seq<Entry>, e: Entry)
    requires OneEach(es) && (e.Break? ==> !BreaksAt(es, e.addr))
    ensures OneEach([e] + es)
  {
    var all := [e] + es;
    forall i, j | 0 <= i < j < |all| && all[i].Break? && all[j].Break?
      ensures all[i].addr != all[j].addr
    {
      assert all[j] == es[j - 1];
    }
  }

  lemma OneEachWithout(es: seq<Entry>, k: nat)
    requires OneEach(es) && k < |es|
    ensures OneEach(Without(es, k))
    ensures es[k].Break? ==> !BreaksAt(Without(es, k), es[k].addr)
  {
    var rest := Without(es, k);
    forall i | 0 <= i < |rest|
      ensures es[k].Break? && rest[i].Break? ==> rest[i].addr != es[k].addr
    {
      assert rest[i] == es[if i < k then i else i + 1];
    }
  }

  lemma PlainKeepsExact(orig: seq<byte>, s: Session, c: Command)
    requires Exact(orig, s) && OneEach(s.es) && Addressed(|s.m|, c) && Room(s, c) && Plain(s, c)
    ensures |orig| == |s.m| && Fits(s) && KeepsExact(orig, s, c) && OneEach(Step(s, c).es)
  {
    hide Sound, OneEach, BreaksAt, Patched, Without;
    ExactIsSound(orig, s);
    match c
    case SetAt(a) =>
      PatchedAt(orig, s.es, a);
      OneEachCons(s.es, Break(a, s.m[a]));
    case SetWatch(val) => OneEachCons(s.es, Watch);
    case Delete(no) =>
      var k := Position(s.live, no);
      if k < |s.es| {
        OneEachWithout(s.es, k);
      }
    case _ =>
  }

  /**
   * Over any sequence of setting and deleting with distinct live addresses, with resuming and stores off the
   * breakpoints in between, memory equals the guest's with the trap at exactly the live addresses, throughout.
   */
  lemma {:induction false} DistinctAddressesStayExact(orig: seq<byte>, s: Session, cs: seq<Command>)
    requires Exact(orig, s) && OneEach(s.es) && Runnable(s, cs) && PlainRun(s, cs)
    ensures ExactThroughout(orig, s, cs) && OneEach(Run(s, cs).es) && Exact(GuestAfter(orig, cs), Run(s, cs))
    ensures var t, g := Run(s, cs), GuestAfter(orig, cs);
      |g| == |t.m| && forall a | 0 <= a < |g| :: t.m[a] == if BreaksAt(t.es, a) then 0xf1 else g[a]
    decreases |cs|
  {
    hide Exact, KeepsExact, Step, OneEach, BreaksAt;
    ExactIsSound(orig, s);
    if cs == [] {
      ExactBytes(orig, s);
    } else {
      PlainKeepsExact(orig, s, cs[0]);
      StepExact(orig, s, cs[0]);
      DistinctAddressesStayExact(Meant(orig, cs[0]), Step(s, cs[0]), cs[1..]);
    }
  }

  lemma ExactBytes(orig: seq<byte>, s: Session)
    requires Exact(orig, s)
    ensures |orig| == |s.m| && forall a | 0 <= a < |orig| :: s.m[a] == if BreaksAt(s.es, a) then INT3_CODE else orig[a]
  {
    hide BreaksAt, Sound;
    SameSize(orig, s);
    forall a | 0 <= a < |orig|
      ensures s.m[a] == if BreaksAt(s.es, a) then INT3_CODE else orig[a]
    {
      PatchedAt(orig, s.es, a);
    }
  }

  /** Setting a second breakpoint at a stop, where memory shows the guest's byte, is sound though not plain. */
  lemma SecondAtStop()
    ensures var orig: seq<byte> := [0x90];
      var s := Session([0x90], [Break(0, 0x90)], [0], [1]);
      && Sound(orig, s) && Clean(orig, s, SetAt(0)) && Sound(orig, Step(s, SetAt(0))) && !OneEach(Step(s, SetAt(0)).es)
  {
    var orig: seq<byte> := [0x90];
    var s := Session([0x90], [Break(0, 0x90)], [0], [1]);
    assert s.es[0].addr == 0 && BreaksAt(s.es, 0);
    assert Sound(orig, s);
    StepSound(orig, s, SetAt(0));
    var es := Step(s, SetAt(0)).es;
    assert es[0].addr == es[1].addr;
  }
}
