/** The falling letters of the typing game, as a client of the list. */
module Effect {
  import opened Lists
  import opened LinkList

  const SCR_HEIGHT := 200.0

  /** What the player sees of a letter: row, column, key, and rows moved per step. */
  datatype Letter = Letter(x: real, y: int, text: int, v: real)

  function AsLetter(f: Fly): Letter { Letter(f.x, f.y, f.text, f.v) }

  function View(pool: seq<Fly>, nodes: seq<int>): (ls: seq<Letter>)
    requires InPool(|pool|, nodes)
    ensures |ls| == |nodes| && forall i | 0 <= i < |nodes| :: ls[i] == AsLetter(pool[nodes[i]])
  {
    seq(|nodes|, i requires 0 <= i < |nodes| => AsLetter(pool[nodes[i]]))
  }

  // ---------- one step of the game on values ----------

  function Moved(l: Letter): Letter { l.(x := l.x + l.v) }

  predicate OutAtTop(l: Letter) { l.x < 0.0 }

  predicate OutAtBottom(l: Letter) { !OutAtTop(l) && l.x + 7.9 > SCR_HEIGHT }

  predicate Gone(l: Letter) { OutAtTop(l) || OutAtBottom(l) }

  /** The letters still on screen after a step, in order. */
  function Kept(ls: seq<Letter>): seq<Letter> {
    if ls == [] then []
    else if Gone(Moved(ls[0])) then Kept(ls[1..])
    else [Moved(ls[0])] + Kept(ls[1..])
  }

  function Hits(ls: seq<Letter>): nat {
    if ls == [] then 0 else (if OutAtTop(Moved(ls[0])) then 1 else 0) + Hits(ls[1..])
  }

  function Misses(ls: seq<Letter>): nat {
    if ls == [] then 0 else (if OutAtBottom(Moved(ls[0])) then 1 else 0) + Misses(ls[1..])
  }

  /** A letter leaves in one way or stays. */
  lemma {:induction false} StepConserves(ls: seq<Letter>)
    ensures |Kept(ls)| + Hits(ls) + Misses(ls) == |ls|
  {
    if ls != [] {
      StepConserves(ls[1..]);
    }
  }

  /** A letter at rest: on screen, falling slowly or shot upwards. */
  predicate OnScreen(l: Letter) {
    && 0.0 <= l.x && l.x + 7.9 <= SCR_HEIGHT && 0 <= l.text < 26
    && (l.v == 0.5 || l.v == -3.0)
  }

  predicate AllOnScreen(ls: seq<Letter>) {
    forall i | 0 <= i < |ls| :: OnScreen(ls[i])
  }

  lemma {:induction false} KeptOnScreen(ls: seq<Letter>)
    requires AllOnScreen(ls)
    ensures AllOnScreen(Kept(ls))
  {
    if ls != [] {
      KeptOnScreen(ls[1..]);
      assert OnScreen(ls[0]);
    }
  }

  lemma OnScreenCons(l: Letter, ls: seq<Letter>)
    requires OnScreen(l) && AllOnScreen(ls)
    ensures AllOnScreen([l] + ls)
  {
  }

  /** Only letters that were shot are hit; only letters still falling are missed. */
  lemma OnlyShotLettersAreHit(l: Letter)
    requires OnScreen(l)
    ensures OutAtTop(Moved(l)) ==> l.v == -3.0
    ensures OutAtBottom(Moved(l)) ==> l.v == 0.5
  {
  }

  /** Letters on their way up. */
  function Rising(ls: seq<Letter>): nat {
    if ls == [] then 0 else (if ls[0].v < 0.0 then 1 else 0) + Rising(ls[1..])
  }

  /** A step turns rising letters into hits, and nothing else into a hit. */
  lemma {:induction false} HitsWereRising(ls: seq<Letter>)
    requires AllOnScreen(ls)
    ensures Rising(Kept(ls)) + Hits(ls) == Rising(ls)
  {
    if ls != [] {
      assert OnScreen(ls[0]);
      OnlyShotLettersAreHit(ls[0]);
      HitsWereRising(ls[1..]);
      var rest := Kept(ls[1..]);
      assert ([Moved(ls[0])] + rest)[1..] == rest;
    }
  }

  lemma {:induction false} RisingUpdated(ls: seq<Letter>, k: nat, l: Letter)
    requires k < |ls| && l.v < 0.0 <= ls[k].v
    ensures Rising(ls[k := l]) == Rising(ls) + 1
  {
    if k > 0 {
      RisingUpdated(ls[1..], k - 1, l);
      assert ls[k := l][1..] == ls[1..][k - 1 := l];
    } else {
      assert ls[k := l][1..] == ls[1..];
    }
  }

  lemma RisingCons(l: Letter, ls: seq<Letter>)
    ensures Rising([l] + ls) == (if l.v < 0.0 then 1 else 0) + Rising(ls)
  {
    assert ([l] + ls)[1..] == ls;
  }

  /** A letter that nobody shoots, `n` steps after its creation. */
  function Fallen(l: Letter, n: nat): Letter
  {
    if n == 0 then l else Moved(Fallen(l, n - 1))
  }

  /** An unshot letter stays for 384 steps and is missed on step 385. */
  lemma {:induction false} UnshotLetterFate(y: int, text: int, n: nat)
    requires 0 <= text < 26
    ensures var l := Letter(0.0, y, text, 0.5);
      Fallen(l, n) == Letter(n as real / 2.0, y, text, 0.5)
      && (n <= 384 ==> OnScreen(Fallen(l, n))) && (n == 385 ==> OutAtBottom(Fallen(l, n)))
  {
    if n > 0 {
      UnshotLetterFate(y, text, n - 1);
    }
  }

  // ---------- any number of steps ----------

  /** The list after `n` steps in which nobody shoots and no letter comes. */
  function Steps(ls: seq<Letter>, n: nat): seq<Letter>
    decreases n
  {
    if n == 0 then ls else Steps(Kept(ls), n - 1)
  }

  function HitsOver(ls: seq<Letter>, n: nat): nat
    decreases n
  {
    if n == 0 then 0 else Hits(ls) + HitsOver(Kept(ls), n - 1)
  }

  function MissesOver(ls: seq<Letter>, n: nat): nat
    decreases n
  {
    if n == 0 then 0 else Misses(ls) + MissesOver(Kept(ls), n - 1)
  }

  lemma NothingKept()
    ensures Kept([]) == [] && Hits([]) == 0 && Misses([]) == 0
  {
  }

  lemma FirstKept(ls: seq<Letter>)
    requires ls != []
    ensures Kept(ls) == (if Gone(Moved(ls[0])) then [] else [Moved(ls[0])]) + Kept(ls[1..])
    ensures Hits(ls) == (if OutAtTop(Moved(ls[0])) then 1 else 0) + Hits(ls[1..])
    ensures Misses(ls) == (if OutAtBottom(Moved(ls[0])) then 1 else 0) + Misses(ls[1..])
  {
  }

  lemma {:induction false} KeptConcat(a: seq<Letter>, b: seq<Letter>)
    ensures Kept(a + b) == Kept(a) + Kept(b)
    ensures Hits(a + b) == Hits(a) + Hits(b) && Misses(a + b) == Misses(a) + Misses(b)
  {
    hide Gone, Moved, OutAtTop, OutAtBottom, Kept, Hits, Misses;
    if a == [] {
      assert a + b == b;
      NothingKept();
      assert [] + Kept(b) == Kept(b);
    } else {
      KeptConcat(a[1..], b);
      assert (a + b)[1..] == a[1..] + b;
      FirstKept(a);
      FirstKept(a + b);
      var first := if Gone(Moved(a[0])) then [] else [Moved(a[0])];
      assert first + (Kept(a[1..]) + Kept(b)) == first + Kept(a[1..]) + Kept(b);
    }
  }

  /** Letters do not concern each other. */
  lemma {:induction false} StepsConcat(a: seq<Letter>, b: seq<Letter>, n: nat)
    ensures Steps(a + b, n) == Steps(a, n) + Steps(b, n)
    ensures HitsOver(a + b, n) == HitsOver(a, n) + HitsOver(b, n)
    ensures MissesOver(a + b, n) == MissesOver(a, n) + MissesOver(b, n)
    decreases n
  {
    if n > 0 {
      KeptConcat(a, b);
      StepsConcat(Kept(a), Kept(b), n - 1);
    }
  }

  lemma NothingLeft(n: nat)
    ensures Steps([], n) == [] && HitsOver([], n) == 0 && MissesOver([], n) == 0
  {
    if n > 0 {
      NothingLeft(n - 1);
    }
  }

  lemma SingleStep(l: Letter)
    ensures var x := l.x + l.v;
      && Kept([l]) == (if x < 0.0 || x + 7.9 > 200.0 then [] else [l.(x := x)])
      && Hits([l]) == (if x < 0.0 then 1 else 0)
      && Misses([l]) == (if x >= 0.0 && x + 7.9 > 200.0 then 1 else 0)
  {
    assert [l][1..] == [];
  }

  /** One letter by itself, shot: up three rows a step until it leaves at the top. */
  lemma {:induction false} AloneRises(l: Letter, n: nat)
    requires 0.0 <= l.x && l.x + 7.9 <= 200.0 && l.v == -3.0
    ensures var x := l.x - 3.0 * n as real;
      && Steps([l], n) == (if x >= 0.0 then [l.(x := x)] else [])
      && HitsOver([l], n) == (if x < 0.0 then 1 else 0) && MissesOver([l], n) == 0
    decreases n
  {
    if n > 0 {
      hide Kept, Hits, Misses;
      SingleStep(l);
      var x, m := l.x - 3.0, (n - 1) as real;
      assert n as real == m + 1.0 && m >= 0.0;
      if x < 0.0 {
        NothingLeft(n - 1);
      } else {
        AloneRises(l.(x := x), n - 1);
        assert l.(x := x).(x := x - 3.0 * m) == l.(x := l.x - 3.0 * n as real);
      }
    }
  }

  /** And falling: down half a row a step until it leaves at the bottom. */
  lemma {:induction false} AloneFalls(l: Letter, n: nat)
    requires 0.0 <= l.x && l.x + 7.9 <= 200.0 && l.v == 0.5
    ensures var x := l.x + 0.5 * n as real;
      && Steps([l], n) == (if x + 7.9 <= 200.0 then [l.(x := x)] else [])
      && HitsOver([l], n) == 0 && MissesOver([l], n) == (if x + 7.9 > 200.0 then 1 else 0)
    decreases n
  {
    if n > 0 {
      hide Kept, Hits, Misses;
      SingleStep(l);
      var x, m := l.x + 0.5, (n - 1) as real;
      assert n as real == m + 1.0 && m >= 0.0;
      if x + 7.9 > 200.0 {
        NothingLeft(n - 1);
      } else {
        AloneFalls(l.(x := x), n - 1);
        assert l.(x := x).(x := x + 0.5 * m) == l.(x := l.x + 0.5 * n as real);
      }
    }
  }

  /**
   * A letter that was shot, wherever in the list: it rises three rows a step, keeping its place, is a hit at the
   * step that takes it above the screen, and is never a miss.
   */
  lemma ShotLetterFate(a: seq<Letter>, l: Letter, b: seq<Letter>, n: nat)
    requires OnScreen(l) && l.v == -3.0
    ensures var x := l.x - 3.0 * n as real;
      && Steps(a + [l] + b, n) == Steps(a, n) + (if x >= 0.0 then [l.(x := x)] else []) + Steps(b, n)
      && HitsOver(a + [l] + b, n) == HitsOver(a, n) + (if x < 0.0 then 1 else 0) + HitsOver(b, n)
      && MissesOver(a + [l] + b, n) == MissesOver(a, n) + MissesOver(b, n)
  {
    hide Steps, HitsOver, MissesOver;
    StepsConcat(a + [l], b, n);
    StepsConcat(a, [l], n);
    AloneRises(l, n);
  }

  /** A falling letter sinks half a row a step and is a miss at the step that takes it below the screen. */
  lemma FallingLetterFate(a: seq<Letter>, l: Letter, b: seq<Letter>, n: nat)
    requires OnScreen(l) && l.v == 0.5
    ensures var x := l.x + 0.5 * n as real;
      && Steps(a + [l] + b, n) == Steps(a, n) + (if x + 7.9 <= 200.0 then [l.(x := x)] else []) + Steps(b, n)
      && HitsOver(a + [l] + b, n) == HitsOver(a, n) + HitsOver(b, n)
      && MissesOver(a + [l] + b, n) == MissesOver(a, n) + (if x + 7.9 > 200.0 then 1 else 0) + MissesOver(b, n)
  {
    hide Steps, HitsOver, MissesOver;
    StepsConcat(a + [l], b, n);
    StepsConcat(a, [l], n);
    AloneFalls(l, n);
  }

  /** Letter `i` is falling and its key is down. */
  predicate Target(ls: seq<Letter>, keys: seq<bool>, i: nat) {
    i < |ls| && ls[i].v > 0.0 && 0 <= ls[i].text < |keys| && keys[ls[i].text]
  }

  lemma LetterAt(ls: seq<Letter>, i: nat)
    requires AllOnScreen(ls) && i < |ls|
    ensures OnScreen(ls[i])
  {
  }

  lemma OnScreenUpdated(ls: seq<Letter>, i: nat, l: Letter)
    requires AllOnScreen(ls) && i < |ls| && OnScreen(l)
    ensures AllOnScreen(ls[i := l])
  {
  }

  // ---------- steps of the traversal ----------

  lemma Suffix(ls: seq<Letter>, n: nat)
    requires n < |ls|
    ensures Kept(ls[n..]) == (if Gone(Moved(ls[n])) then [] else [Moved(ls[n])]) + Kept(ls[n + 1..])
    ensures Hits(ls[n..]) == (if OutAtTop(Moved(ls[n])) then 1 else 0) + Hits(ls[n + 1..])
    ensures Misses(ls[n..]) == (if OutAtBottom(Moved(ls[n])) then 1 else 0) + Misses(ls[n + 1..])
  {
    assert ls[n..][0] == ls[n] && ls[n..][1..] == ls[n + 1..];
  }

  lemma ViewWritten(pool: seq<Fly>, nodes: seq<int>, k: nat, f: Fly)
    requires InPool(|pool|, nodes) && NoDup(nodes) && k < |nodes|
    ensures View(pool[nodes[k] := f], nodes) == View(pool, nodes)[k := AsLetter(f)]
  {
  }

  lemma ViewCons(pool: seq<Fly>, nodes: seq<int>, p: int)
    requires InPool(|pool|, nodes) && 0 <= p < |pool|
    ensures InPool(|pool|, [p] + nodes) && View(pool, [p] + nodes) == [AsLetter(pool[p])] + View(pool, nodes)
  {
  }

  /** Relinking a pool shows the same letters. */
  lemma ViewSame(pool: seq<Fly>, pool': seq<Fly>, nodes: seq<int>)
    requires InPool(|pool|, nodes) && |pool'| == |pool|
    requires forall i | 0 <= i < |nodes| :: AsLetter(pool'[nodes[i]]) == AsLetter(pool[nodes[i]])
    ensures View(pool', nodes) == View(pool, nodes)
  {
  }

  lemma DoublyKept(pool: seq<Fly>, pool': seq<Fly>, head: int, nodes: seq<int>)
    requires Doubly(pool, head, nodes) && |pool'| == |pool|
    requires forall i | 0 <= i < |nodes| ::
      pool'[nodes[i]].next == pool[nodes[i]].next && pool'[nodes[i]].prev == pool[nodes[i]].prev
    ensures Doubly(pool', head, nodes)
  {
  }

  /** The pool entries of the live letters, and nothing else, are in use. */
  ghost predicate Live(pool: seq<Fly>, head: int, live: seq<int>, used: set<int>) {
    NoDup(live) && Elems(live) == used && Doubly(pool, head, live)
  }

  /** Dropping letter `k` from list and pool shows the letters without it. */
  lemma Dropped(pool: seq<Fly>, head: int, live: seq<int>, used: set<int>, k: nat, f: Fly, g: Fly)
    requires Live(pool, head, live, used) && k < |live|
    requires f.prev == pool[live[k]].prev && f.next == pool[live[k]].next
    ensures live[k] in used && f.prev == Before(live, k) && f.next == At(live, k + 1)
    ensures f.prev == NULL || (f.prev in used && 0 <= f.prev < |pool|)
    ensures f.next == NULL || (f.next in used && 0 <= f.next < |pool|)
    ensures var last := Removed(pool[live[k] := f], live[k])[live[k] := g];
      && Live(last, if k == 0 then f.next else head, Without(live, k), used - {live[k]})
      && View(last, Without(live, k)) == Without(View(pool, live), k)
  {
    hide Doubly, Removed, NoDup, Elems, View;
    var p, rest := live[k], Without(live, k);
    Ends(pool, head, live, used, k);
    Links(pool, head, live, k);
    Written(pool, head, live, used, k, f);
    WithoutElems(live, k);
    InElems(rest, p);
    RemoveKeepsList(pool[p := f], head, live, k);
    var removed, head' := Removed(pool[p := f], p), if k == 0 then f.next else head;
    var last := removed[p := g];
    forall i | 0 <= i < |rest|
      ensures rest[i] != p && 0 <= rest[i] < |pool| && AsLetter(last[rest[i]]) == AsLetter(pool[rest[i]])
    {
      assert rest[i] == live[if i < k then i else i + 1];
      RemovedFields(pool[p := f], p, rest[i]);
    }
    DoublyKept(removed, last, head', rest);
    ViewSame(pool, last, rest);
    ViewWithout(pool, live, k);
  }

  lemma Links(pool: seq<Fly>, head: int, live: seq<int>, k: nat)
    requires Doubly(pool, head, live) && k < |live|
    ensures InPool(|pool|, live) && pool[live[k]].prev == Before(live, k) && pool[live[k]].next == At(live, k + 1)
    ensures Before(live, k) == NULL || 0 <= Before(live, k) < |pool|
    ensures At(live, k + 1) == NULL || 0 <= At(live, k + 1) < |pool|
  {
  }

  lemma ViewWithout(pool: seq<Fly>, nodes: seq<int>, k: nat)
    requires InPool(|pool|, nodes) && k < |nodes|
    ensures InPool(|pool|, Without(nodes, k)) && View(pool, Without(nodes, k)) == Without(View(pool, nodes), k)
  {
  }

  /** Writing the fields of letter `k` other than its links. */
  lemma Written(pool: seq<Fly>, head: int, live: seq<int>, used: set<int>, k: nat, f: Fly)
    requires Live(pool, head, live, used) && k < |live|
    requires f.prev == pool[live[k]].prev && f.next == pool[live[k]].next
    ensures live[k] in used && Live(pool[live[k] := f], head, live, used)
    ensures View(pool[live[k] := f], live) == View(pool, live)[k := AsLetter(f)]
  {
    InElems(live, live[k]);
    ViewWritten(pool, live, k, f);
    DoublyKept(pool, pool[live[k] := f], head, live);
  }

  /** A new node in front of the list. */
  lemma Prepended(pool: seq<Fly>, head: int, live: seq<int>, used: set<int>, p: int)
    requires Live(pool, head, live, used) && 0 <= p < |pool| && p !in used && head != NULL
    ensures 0 <= head < |pool| && head in used
    ensures Live(Inserted(pool, NULL, head, p), p, [p] + live, used + {p})
    ensures View(Inserted(pool, NULL, head, p), [p] + live) == [AsLetter(pool[p])] + View(pool, live)
  {
    InElems(live, p);
    InElems(live, head);
    InsertKeepsList(pool, head, live, 0, p);
    assert With(live, 0, p) == [p] + live;
    ConsElems(p, live);
    var pool' := Inserted(pool, NULL, head, p);
    forall i | 0 <= i < |live|
      ensures AsLetter(pool'[live[i]]) == AsLetter(pool[live[i]])
    {
      InsertedFields(pool, NULL, head, p, live[i]);
    }
    InsertedFields(pool, NULL, head, p, p);
    ViewSame(pool, pool', live);
    ViewCons(pool', live, p);
  }

  lemma FirstLetter(pool: seq<Fly>, p: int)
    requires 0 <= p < |pool| && pool[p].prev == NULL && pool[p].next == NULL
    ensures Live(pool, p, [p], {p})
  {
    assert Elems([p]) == {p};
  }

  lemma LiveKept(pool: seq<Fly>, pool': seq<Fly>, head: int, live: seq<int>, used: set<int>)
    requires Live(pool, head, live, used) && |pool'| == |pool|
    requires forall p | 0 <= p < |pool| && p in used :: pool'[p] == pool[p]
    ensures Live(pool', head, live, used) && View(pool', live) == View(pool, live)
  {
    forall i | 0 <= i < |live|
      ensures pool'[live[i]] == pool[live[i]]
    {
      InElems(live, live[i]);
    }
  }

  lemma Neighbours(live: seq<int>, used: set<int>, k: nat)
    requires Elems(live) == used && k < |live|
    ensures Before(live, k) == NULL || Before(live, k) in used
    ensures At(live, k + 1) == NULL || At(live, k + 1) in used
  {
    if k > 0 {
      InElems(live, live[k - 1]);
    }
    if k + 1 < |live| {
      InElems(live, live[k + 1]);
    }
  }

  // ---------- the game ----------

  class Game {
    const fly: FlyPool
    var head: int
    var hit: nat
    var miss: nat
    const letter_pressed: array<bool>
    ghost var live: seq<int>
    ghost var created: nat
    ghost var shots: nat
    /** The processor's interrupt flag, as `cli` and `sti` set it. */
    var eflagsIF: bool

    constructor (keys: array<bool>)
      requires keys.Length == 26
      ensures Valid() && live == [] && hit == miss == created == shots == 0 && fly.size == 1000 && fresh(fly)
          && fresh(fly.pool)
      ensures letter_pressed == keys
    {
      fly := new FlyPool(1000);
      head, hit, miss, letter_pressed := NULL, 0, 0, keys;
      live, created, shots := [], 0, 0;
      eflagsIF := true;
      new;
      assert Elems<int>([]) == {};
    }

    /** The list runs through the pool's used entries. */
    ghost predicate Linked()
      reads this, fly, fly.pool
    {
      fly.Valid() && InPool(fly.pool.Length, live) && Live(fly.pool[..], head, live, fly.used)
    }

    /** Every letter ever created is on screen, hit or missed; the list holds those on screen; every hit was shot. */
    ghost predicate Valid()
      reads this, fly, fly.pool
    {
      && Linked() && AllOnScreen(Letters()) && letter_pressed.Length == 26
      && created == |live| + hit + miss && shots == hit + Rising(Letters())
    }

    ghost function Letters(): seq<Letter>
      requires InPool(fly.pool.Length, live)
      reads this, fly, fly.pool
    {
      View(fly.pool[..], live)
    }

    /** The links of a new first letter; its fields are set afterwards. */
    method PrependNode() returns (ghost used0: set<int>)
      requires Linked() && |live| < fly.size
      modifies `head, `live, fly, fly.pool
      ensures Linked() && live == [head] + old(live) && head != NULL
      ensures |Letters()| > 0 && Letters()[1..] == old(Letters())
    {
      hide Live, View, Splits, Singly, Numbers;
      ghost var pool0, ls0 := fly.pool[..], Letters();
      used0 := fly.used;
      Counted(pool0, head, live, used0);
      var now := fly.New();
      ghost var pool1 := fly.pool[..];
      LiveKept(pool0, pool1, head, live, used0);
      if head == NULL {
        NoneLive(pool0, head, live, used0);
        FirstLetter(pool1, now);
        ViewCons(pool1, live, now);
        assert [now] + live == [now] && used0 + {now} == {now};
      } else {
        Prepended(pool1, head, live, used0, now);
        fly.Insert(NULL, head, now);
      }
      head := now;
      live := [now] + live;
      Ends(fly.pool[..], head, live, fly.used, 0);
    }

    /** `create_new_letter`, its three random choices given. */
    method CreateNewLetter(y: int, text: nat)
      requires Valid() && |live| < fly.size && text < 26
      modifies this, fly, fly.pool, letter_pressed
      ensures Valid() && Letters() == [Letter(0.0, y, text, 0.5)] + old(Letters())
      ensures created == old(created) + 1 && hit == old(hit) && miss == old(miss) && shots == old(shots)
      ensures letter_pressed[..] == old(letter_pressed[..])[text := false]
    {
      hide Live, AllOnScreen, View, FreeList, Rising;
      ghost var ls0, l := Letters(), Letter(0.0, y, text, 0.5);
      ghost var used0 := PrependNode();
      ghost var pool := fly.pool[..];
      Ends(pool, head, live, fly.used, 0);
      var f := fly.pool[head].(x := 0.0, y := y, v := 0.5, text := text);
      fly.pool[head] := f;
      assert fly.pool[..] == pool[head := f];
      Written(pool, head, live, fly.used, 0, f);
      UsedWritten(pool, fly.pool[..], fly.size, fly.free_head, fly.idle, fly.used);
      letter_pressed[text] := false;
      OnScreenCons(l, ls0);
      RisingCons(l, ls0);
      assert Letters() == [l] + ls0;
      created := created + 1;
    }

    /** The traversal of `update_letter_pos`. */
    method MoveAll(ghost ls0: seq<Letter>)
      requires Linked() && Letters() == ls0
      modifies `head, `hit, `miss, `live, fly, fly.pool
      ensures Linked() && Letters() == Kept(ls0)
      ensures hit == old(hit) + Hits(ls0) && miss == old(miss) + Misses(ls0)
    {
      hide Live, View, FreeList, Kept, Hits, Misses, Without, Gone, Moved, OutAtTop, OutAtBottom;
      ghost var n, done := 0, 0;
      Ends(fly.pool[..], head, live, fly.used, 0);
      assert ls0[0..] == ls0 && ls0[..0] == [];
      var it := head;
      while it != NULL
        invariant Linked()
        invariant 0 <= done <= |live| && 0 <= n && it == At(live, done) && n <= |ls0| && |live| - done == |ls0| - n
        invariant Letters()[done..] == ls0[n..] && Letters()[..done] + Kept(ls0[n..]) == Kept(ls0)
        invariant hit + Hits(ls0[n..]) == old(hit) + Hits(ls0) && miss + Misses(ls0[n..]) == old(miss) + Misses(ls0)
        decreases |live| - done
      {
        it, done := Advance(it, done, ls0, n);
        n := n + 1;
      }
      Ends(fly.pool[..], head, live, fly.used, done);
      assert done == |live| && n == |ls0|;
      EmptySuffix(ls0);
      assert Letters()[..done] == Letters();
    }

    /** `update_letter_pos`: every letter moves, and those that leave are counted and freed. */
    method UpdateLetterPos()
      requires Valid()
      modifies `head, `hit, `miss, `live, fly, fly.pool
      ensures Valid() && Letters() == Kept(old(Letters()))
      ensures hit == old(hit) + Hits(old(Letters())) && miss == old(miss) + Misses(old(Letters()))
    {
      hide Live, AllOnScreen, View, FreeList, Kept, Hits, Misses, Rising;
      ghost var ls0 := Letters();
      MoveAll(ls0);
      StepConserves(ls0);
      KeptOnScreen(ls0);
      HitsWereRising(ls0);
    }

    /** `update_keypress`: the lowest falling letter whose key is down turns round. */
    method UpdateKeypress() returns (shot: bool, ghost k: nat)
      requires Valid()
      modifies `shots, `eflagsIF, fly.pool, letter_pressed
      ensures Valid() && live == old(live) && shots == old(shots) + (if shot then 1 else 0)
      ensures shot <==> exists i: nat :: Target(old(Letters()), old(letter_pressed[..]), i)
      ensures shot ==>
        && Target(old(Letters()), old(letter_pressed[..]), k)
        && (forall i: nat | Target(old(Letters()), old(letter_pressed[..]), i) ::
              old(Letters())[i].x <= old(Letters())[k].x)
        && (forall i: nat | i < k && Target(old(Letters()), old(letter_pressed[..]), i) ::
              old(Letters())[i].x < old(Letters())[k].x)
        && Letters() == old(Letters())[k := old(Letters())[k].(v := -3.0)]
        && letter_pressed[..] == old(letter_pressed[..])[old(Letters())[k].text := false]
      ensures !shot ==> Letters() == old(Letters()) && letter_pressed[..] == old(letter_pressed[..])
      ensures eflagsIF == !shot   // only an unsuccessful call turns interrupts on again
    {
      hide Live, View, FreeList, AllOnScreen, Rising;
      ghost var pool, ls, keys := fly.pool[..], Letters(), letter_pressed[..];
      eflagsIF := false;
      var target, min := NULL, -100.0;
      k := 0;
      Ends(pool, head, live, fly.used, 0);
      var it := head;
      ghost var n := 0;
      while it != NULL
        modifies {}
        invariant 0 <= n <= |live| && it == At(live, n)
        invariant target == NULL ==> min == -100.0 && forall i: nat :: i < n ==> !Target(ls, keys, i)
        invariant target != NULL ==> k < n && target == live[k] && Target(ls, keys, k) && min == ls[k].x
        invariant target != NULL ==>
          forall i: nat :: i < n && Target(ls, keys, i) ==> ls[i].x <= min && (i < k ==> ls[i].x < min)
        decreases |live| - n
      {
        Ends(pool, head, live, fly.used, n);
        LetterAt(ls, n);
        var f := fly.pool[it];
        assert ls[n] == AsLetter(f);
        assert f.text >= 0 && f.text < 26;
        if f.v > 0.0 && f.x > min && letter_pressed[f.text] {
          min := f.x;
          target := it;
          k := n;
        }
        it := f.next;
        n := n + 1;
      }
      Ends(pool, head, live, fly.used, n);
      if target != NULL {
        shot := true;
        TurnRound(target, k);
      } else {
        eflagsIF := true;
        shot := false;
        assert fly.pool[..] == pool;
      }
    }

    /** The letter found is released and sent upwards. */
    method TurnRound(target: int, ghost k: nat)
      requires Valid() && k < |live| && target == live[k] && Letters()[k].v > 0.0
      modifies `shots, fly.pool, letter_pressed
      ensures Valid() && shots == old(shots) + 1 && 0 <= old(Letters())[k].text < letter_pressed.Length
      ensures Letters() == old(Letters())[k := old(Letters())[k].(v := -3.0)]
      ensures letter_pressed[..] == old(letter_pressed[..])[old(Letters())[k].text := false]
    {
      hide Live, View, FreeList, AllOnScreen, Rising;
      ghost var pool, ls := fly.pool[..], Letters();
      Ends(pool, head, live, fly.used, k);
      LetterAt(ls, k);
      letter_pressed[fly.pool[target].text] := false;
      var f := fly.pool[target].(v := -3.0);
      fly.pool[target] := f;
      assert fly.pool[..] == pool[target := f];
      Written(pool, head, live, fly.used, k, f);
      UsedWritten(pool, fly.pool[..], fly.size, fly.free_head, fly.idle, fly.used);
      OnScreenUpdated(ls, k, AsLetter(f));
      RisingUpdated(ls, k, AsLetter(f));
      shots := shots + 1;
      assert Letters() == ls[k := AsLetter(f)];
    }

    /** The loop body: one letter moves; it stays in the list or leaves it. */
    method Advance(it: int, ghost done: nat, ghost ls0: seq<Letter>, ghost n: nat)
      returns (next: int, ghost done': nat)
      requires Linked()
      requires done < |live| && it == live[done] && n < |ls0| && |live| - done == |ls0| - n
          && Letters()[done..] == ls0[n..]
      modifies `head, `hit, `miss, `live, fly, fly.pool
      ensures Linked()
      ensures done' <= |live| && next == At(live, done') && |live| - done' == |ls0| - (n + 1)
      ensures Letters()[done'..] == ls0[n + 1..]
      ensures Letters()[..done'] + Kept(ls0[n + 1..]) == old(Letters())[..done] + Kept(ls0[n..])
      ensures hit + Hits(ls0[n + 1..]) == old(hit) + Hits(ls0[n..])
      ensures miss + Misses(ls0[n + 1..]) == old(miss) + Misses(ls0[n..])
    {
      hide Live, AllOnScreen, View, Without, Splits, Singly, Numbers, Kept, Hits, Misses;
      Suffix(ls0, n);
      ghost var pool, ls := fly.pool[..], Letters();
      Ends(pool, head, live, fly.used, done);
      assert ls[done] == ls0[n] by { assert ls[done..][0] == ls0[n..][0]; }
      next := fly.pool[it].next;
      var f := fly.pool[it].(x := fly.pool[it].x + fly.pool[it].v);
      fly.pool[it] := f;
      assert fly.pool[..] == pool[it := f];
      Written(pool, head, live, fly.used, done, f);
      UsedWritten(pool, fly.pool[..], fly.size, fly.free_head, fly.idle, fly.used);
      assert AsLetter(f) == Moved(ls0[n]);
      if f.x < 0.0 || f.x + 7.9 > SCR_HEIGHT {
        if f.x < 0.0 {
          hit := hit + 1;
        } else {
          miss := miss + 1;
        }
        fly.Remove(it);
        Dropped(pool, head, live, fly.used, done, f, fly.pool[it].(next := fly.free_head));
        fly.Free(it);
        if it == head {
          head := next;
        }
        ghost var live' := Without(live, done);
        live, done' := live', done;
        SplitWithout(ls, done);
        assert ls[done + 1..] == ls0[n + 1..] by { SuffixTail(ls, done, ls0, n); }
      } else {
        done' := done + 1;
        SplitUpdated(ls, done, AsLetter(f));
        assert ls[..done] + ([AsLetter(f)] + Kept(ls0[n + 1..])) == ls[..done] + [AsLetter(f)] + Kept(ls0[n + 1..]);
        assert ls[done + 1..] == ls0[n + 1..] by { SuffixTail(ls, done, ls0, n); }
      }
    }
  }

  lemma Counted(pool: seq<Fly>, head: int, live: seq<int>, used: set<int>)
    requires Live(pool, head, live, used)
    ensures |live| == |used|
  {
    NoDupCount(live);
  }

  lemma NoneLive(pool: seq<Fly>, head: int, live: seq<int>, used: set<int>)
    requires Live(pool, head, live, used)
    ensures head == NULL <==> live == []
    ensures live == [] ==> used == {}
  {
  }

  /** Facts about node `k` of the list. */
  lemma Ends(pool: seq<Fly>, head: int, live: seq<int>, used: set<int>, k: nat)
    requires Live(pool, head, live, used)
    ensures InPool(|pool|, live) && head == At(live, 0)
    ensures k < |live| ==> live[k] in used && 0 <= live[k] < |pool| && pool[live[k]].next == At(live, k + 1)
    ensures k < |live| ==> (live[k] == head <==> k == 0)
    ensures k < |live| ==> var f := pool[live[k]];
      (f.prev == NULL || f.prev in used) && (f.next == NULL || f.next in used)
  {
    if k < |live| {
      InElems(live, live[k]);
      Neighbours(live, used, k);
    }
  }

  lemma EmptySuffix(ls: seq<Letter>)
    ensures Kept(ls[|ls|..]) == [] && Hits(ls[|ls|..]) == 0 && Misses(ls[|ls|..]) == 0
  {
  }

  lemma SplitWithout(ls: seq<Letter>, k: nat)
    requires k < |ls|
    ensures Without(ls, k)[..k] == ls[..k] && Without(ls, k)[k..] == ls[k + 1..]
  {
  }

  lemma SplitUpdated(ls: seq<Letter>, k: nat, l: Letter)
    requires k < |ls|
    ensures ls[k := l][..k + 1] == ls[..k] + [l] && ls[k := l][k + 1..] == ls[k + 1..]
  {
  }

  lemma SuffixTail(ls: seq<Letter>, k: nat, ls0: seq<Letter>, n: nat)
    requires k < |ls| && n < |ls0| && ls[k..] == ls0[n..]
    ensures ls[k + 1..] == ls0[n + 1..]
  {
    assert ls[k + 1..] == ls[k..][1..] && ls0[n + 1..] == ls0[n..][1..];
  }
}
