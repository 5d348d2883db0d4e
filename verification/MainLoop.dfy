/** The typing game's main loop: whatever timer and keyboard do, the pool of letters is large enough. */
module MainLoop {
  import opened Lists
  import opened LinkList
  import opened Effect

  const HZ := 100
  const CHARACTER_PER_SECOND := 3
  const UPDATE_PER_SECOND := 100
  const PERIOD := 33        // HZ / CHARACTER_PER_SECOND ticks from one letter to the next
  const MAX_AGE := 448      // 384 steps down and, shot at the bottom, 64 up again
  const MAX_LETTERS := 14

  // ---------- how long a letter can live ----------

  /** A letter that has moved `age` times: falling from the top, or shot somewhere on its way. */
  predicate Lives(l: Letter, age: int) {
    && 0 <= age && OnScreen(l)
    && (l.v == 0.5 ==> l.x == age as real / 2.0)
    && (l.v == -3.0 ==> age as real + l.x / 3.0 <= MAX_AGE as real)
  }

  lemma OldestLetter(l: Letter, age: int)
    requires Lives(l, age)
    ensures age <= MAX_AGE
  {
  }

  /** A step makes a letter one step older, unless it leaves. */
  lemma MovedLives(l: Letter, age: int)
    requires Lives(l, age) && !Gone(Moved(l))
    ensures Lives(Moved(l), age + 1)
  {
  }

  lemma ShotLives(l: Letter, age: int)
    requires Lives(l, age) && l.v > 0.0
    ensures Lives(l.(v := -3.0), age)
  {
  }

  // ---------- the letters on screen and when they came ----------

  /** Letter `i` came at tick `PERIOD * turns[i]`, newer letters later; `now` ticks have been simulated. */
  predicate Aged(ls: seq<Letter>, turns: seq<int>, now: int) {
    && |turns| == |ls|
    && (forall i | 0 <= i < |ls| :: Lives(ls[i], now - PERIOD * turns[i]))
    && (forall i, j | 0 <= i < j < |ls| :: turns[j] < turns[i])
  }

  /** No letter comes from the future. */
  predicate Past(turns: seq<int>, now: int) {
    forall i | 0 <= i < |turns| :: PERIOD * turns[i] < now
  }

  lemma {:induction false} Descending(turns: seq<int>)
    requires turns != [] && forall i, j | 0 <= i < j < |turns| :: turns[j] < turns[i]
    ensures turns[0] - turns[|turns| - 1] >= |turns| - 1
  {
    if |turns| > 1 {
      Descending(turns[1..]);
      assert turns[1] < turns[0];
    }
  }

  /** Letters come 33 ticks apart and none is older than 448: there are never more than 14. */
  lemma FewLetters(ls: seq<Letter>, turns: seq<int>, now: int)
    requires Aged(ls, turns, now)
    ensures |ls| <= MAX_LETTERS
  {
    if ls != [] {
      var last := |ls| - 1;
      Descending(turns);
      OldestLetter(ls[0], now - PERIOD * turns[0]);
      OldestLetter(ls[last], now - PERIOD * turns[last]);
    }
  }

  /** There is room for one more before the next letter is due. */
  lemma RoomForNext(ls: seq<Letter>, turns: seq<int>, now: int)
    requires Aged(ls, turns, now) && now % PERIOD == 0 && Past(turns, now)
    ensures |ls| < MAX_LETTERS
  {
    if ls != [] {
      var last := |ls| - 1;
      Descending(turns);
      OldestLetter(ls[last], now - PERIOD * turns[last]);
      assert now == PERIOD * (now / PERIOD);
      assert turns[0] < now / PERIOD;
    }
  }

  lemma NewLetterAged(ls: seq<Letter>, turns: seq<int>, now: int, l: Letter)
    requires Aged(ls, turns, now) && now % PERIOD == 0 && Past(turns, now)
    requires l.x == 0.0 && l.v == 0.5 && OnScreen(l)
    ensures Aged([l] + ls, [now / PERIOD] + turns, now)
    ensures Past([now / PERIOD] + turns, now + 1)
  {
    var ls', turns' := [l] + ls, [now / PERIOD] + turns;
    assert now == PERIOD * (now / PERIOD);
    forall i | 0 <= i < |ls'|
      ensures Lives(ls'[i], now - PERIOD * turns'[i])
    {
      assert i > 0 ==> ls'[i] == ls[i - 1] && turns'[i] == turns[i - 1];
    }
    forall i, j | 0 <= i < j < |ls'|
      ensures turns'[j] < turns'[i]
    {
      assert turns'[j] == turns[j - 1] && (i > 0 ==> turns'[i] == turns[i - 1]);
    }
  }

  /** The turns of the letters that stay. */
  function Staying(ls: seq<Letter>, turns: seq<int>): (r: seq<int>)
    requires |turns| == |ls|
    ensures forall t | t in r :: t in turns
  {
    if ls == [] then []
    else if Gone(Moved(ls[0])) then Staying(ls[1..], turns[1..])
    else [turns[0]] + Staying(ls[1..], turns[1..])
  }

  lemma AgedSize(ls: seq<Letter>, turns: seq<int>, now: int)
    requires Aged(ls, turns, now)
    ensures |turns| == |ls|
  {
  }

  lemma AgedTail(ls: seq<Letter>, turns: seq<int>, now: int)
    requires Aged(ls, turns, now) && ls != []
    ensures Aged(ls[1..], turns[1..], now) && forall t | t in turns[1..] :: t < turns[0]
  {
  }

  lemma AgedCons(l: Letter, t: int, ls: seq<Letter>, turns: seq<int>, now: int)
    requires Aged(ls, turns, now) && Lives(l, now - PERIOD * t) && forall u | u in turns :: u < t
    ensures Aged([l] + ls, [t] + turns, now)
  {
    var ls', turns' := [l] + ls, [t] + turns;
    assert forall i | 0 < i < |ls'| :: ls'[i] == ls[i - 1] && turns'[i] == turns[i - 1];
    forall i, j | 0 <= i < j < |ls'|
      ensures turns'[j] < turns'[i]
    {
      assert turns'[j] in turns;
    }
  }

  lemma {:induction false} StepAged(ls: seq<Letter>, turns: seq<int>, now: int)
    requires Aged(ls, turns, now)
    ensures Aged(Kept(ls), Staying(ls, turns), now + 1)
  {
    if ls != [] {
      AgedTail(ls, turns, now);
      StepAged(ls[1..], turns[1..], now);
      assert Lives(ls[0], now - PERIOD * turns[0]);
      if !Gone(Moved(ls[0])) {
        MovedLives(ls[0], now - PERIOD * turns[0]);
        AgedCons(Moved(ls[0]), turns[0], Kept(ls[1..]), Staying(ls[1..], turns[1..]), now + 1);
      }
    }
  }

  lemma ShotAged(ls: seq<Letter>, turns: seq<int>, now: int, k: nat)
    requires Aged(ls, turns, now) && k < |ls| && ls[k].v > 0.0
    ensures Aged(ls[k := ls[k].(v := -3.0)], turns, now)
  {
    ShotLives(ls[k], now - PERIOD * turns[k]);
  }

  lemma StayingPast(ls: seq<Letter>, turns: seq<int>, age: int, now: int)
    requires Aged(ls, turns, age) && Past(turns, now)
    ensures Past(Staying(ls, turns), now)
  {
    var r := Staying(ls, turns);
    forall i | 0 <= i < |r|
      ensures PERIOD * r[i] < now
    {
      assert r[i] in turns;
    }
  }

  lemma {:induction false} RisingBound(ls: seq<Letter>)
    ensures Rising(ls) <= |ls|
  {
    if ls != [] {
      RisingBound(ls[1..]);
    }
  }

  // ---------- the loop ----------

  /** A simulated tick: the keys that went down before it, and the random column and letter if one is due. */
  datatype Moment = Moment(keys: seq<nat>, y: int, text: nat)

  /** One pass of the main loop: keys that went down while it waited, and the ticks it has to catch up with. */
  datatype Pass = Pass(keys: seq<nat>, moments: seq<Moment>)

  predicate Keys(keys: seq<nat>) {
    forall i | 0 <= i < |keys| :: keys[i] < 26
  }

  predicate Possible(p: Pass) {
    Keys(p.keys) && forall i | 0 <= i < |p.moments| :: Keys(p.moments[i].keys) && p.moments[i].text < 26
  }

  /** How many of the first `now` ticks bring a letter. */
  function Due(now: nat): nat {
    (now + PERIOD - 1) / PERIOD
  }

  lemma NextDue(now: nat)
    ensures Due(now + 1) == Due(now) + (if now % PERIOD == 0 then 1 else 0)
  {
    var q := now / PERIOD;
    assert now == PERIOD * q + now % PERIOD;
    if now % PERIOD == 0 {
      assert Due(now) == q && Due(now + 1) == q + 1;
    } else {
      assert Due(now) == q + 1 && Due(now + 1) == q + 1;
    }
  }

  function Pressed(down: seq<bool>, keys: seq<nat>): (r: seq<bool>)
    ensures |r| == |down|
  {
    seq(|down|, k requires 0 <= k < |down| => down[k] || k in keys)
  }

  ghost predicate Wants(ls: seq<Letter>, down: seq<bool>, k: nat) {
    exists i: nat :: Target(ls, down, i) && ls[i].text == k
  }

  /** The keys that are down while a letter of theirs is falling. */
  ghost function Wanted(ls: seq<Letter>, down: seq<bool>): set<nat> {
    set k: nat | k < |down| && Wants(ls, down, k)
  }

  lemma InWanted(ls: seq<Letter>, down: seq<bool>, k: nat)
    ensures k in Wanted(ls, down) <==> k < |down| && Wants(ls, down, k)
  {
  }

  /** A shot satisfies one of them, and no other. */
  lemma ShotSatisfies(ls: seq<Letter>, down: seq<bool>, k: nat)
    requires Target(ls, down, k)
    ensures ls[k].text in Wanted(ls, down)
    ensures Wanted(ls[k := ls[k].(v := -3.0)], down[ls[k].text := false]) == Wanted(ls, down) - {ls[k].text}
  {
    var ls', down', t := ls[k := ls[k].(v := -3.0)], down[ls[k].text := false], ls[k].text;
    InWanted(ls, down, t);
    forall u: nat
      ensures u in Wanted(ls', down') <==> u in Wanted(ls, down) && u != t
    {
      InWanted(ls, down, u);
      InWanted(ls', down', u);
      if u in Wanted(ls', down') {
        var i: nat :| Target(ls', down', i) && ls'[i].text == u;
        assert i != k && Target(ls, down, i) && ls[i].text == u;
      }
      if u in Wanted(ls, down) && u != t {
        var i: nat :| Target(ls, down, i) && ls[i].text == u;
        assert Target(ls', down', i) && ls'[i].text == u;
      }
    }
  }

  /** No falling letter of the same key is lower. */
  predicate LowestOfKey(ls: seq<Letter>, i: nat)
    requires i < |ls|
  {
    forall j | 0 <= j < |ls| && ls[j].v > 0.0 && ls[j].text == ls[i].text :: ls[j].x <= ls[i].x
  }

  /** Letters of the keys in `done`, each the lowest falling one of its key, have turned round; the others stayed. */
  predicate Aimed(ls: seq<Letter>, ls': seq<Letter>, done: set<nat>) {
    && |ls'| == |ls|
    && forall i | 0 <= i < |ls| && ls'[i] != ls[i] ::
      ls[i].v > 0.0 && ls[i].text in done && LowestOfKey(ls, i) && ls'[i] == ls[i].(v := -3.0)
  }

  lemma ShotAimed(ls: seq<Letter>, ls': seq<Letter>, done: set<nat>, down: seq<bool>, k: nat)
    requires Aimed(ls, ls', done) && Target(ls', down, k) && ls'[k].text !in done
    requires forall i: nat | Target(ls', down, i) :: ls'[i].x <= ls'[k].x
    ensures Aimed(ls, ls'[k := ls'[k].(v := -3.0)], done + {ls'[k].text})
  {
    assert ls'[k] == ls[k];
    forall j | 0 <= j < |ls| && ls[j].v > 0.0 && ls[j].text == ls[k].text
      ensures ls[j].x <= ls[k].x
    {
      assert ls'[j] == ls[j] && Target(ls', down, j);
    }
  }

  // ---------- the ticks of a pass, on values ----------

  /** What the player can see and press, and the score. */
  datatype Screen = Screen(ls: seq<Letter>, down: seq<bool>, hit: nat, miss: nat)

  /** Tick `now`: keys go down, a letter comes every 33rd time and releases its key, everything moves. */
  function AfterTick(s: Screen, now: nat, m: Moment): (t: Screen)
    requires |s.down| == 26 && m.text < 26
    ensures |t.down| == 26
  {
    var pressed := Pressed(s.down, m.keys);
    var ls := (if now % 33 == 0 then [Letter(0.0, m.y, m.text, 0.5)] else []) + s.ls;
    Screen(Kept(ls), if now % 33 == 0 then pressed[m.text := false] else pressed, s.hit + Hits(ls), s.miss + Misses(ls))
  }

  function AfterTicks(s: Screen, now: nat, ms: seq<Moment>): (t: Screen)
    requires |s.down| == 26 && forall i | 0 <= i < |ms| :: ms[i].text < 26
    ensures |t.down| == 26
    decreases |ms|
  {
    if ms == [] then s else AfterTicks(AfterTick(s, now, ms[0]), now + 1, ms[1..])
  }

  lemma TickNext(s: Screen, now: nat, ms: seq<Moment>, i: nat)
    requires |s.down| == 26 && (forall j | 0 <= j < |ms| :: ms[j].text < 26) && i < |ms|
    ensures AfterTicks(s, now, ms[i..]) == AfterTicks(AfterTick(s, now, ms[i]), now + 1, ms[i + 1..])
  {
    assert ms[i..][0] == ms[i] && ms[i..][1..] == ms[i + 1..];
  }

  lemma NobodyWanted(ls: seq<Letter>, down: seq<bool>)
    requires forall i: nat :: !Target(ls, down, i)
    ensures Wanted(ls, down) == {}
  {
  }

  /** The keyboard interrupt, for each key. */
  method PressKeys(g: Game, keys: seq<nat>)
    requires g.Valid() && Keys(keys)
    modifies g.letter_pressed
    ensures g.Valid() && g.letter_pressed[..] == Pressed(old(g.letter_pressed[..]), keys)
  {
    var i := 0;
    while i < |keys|
      invariant i <= |keys|
      invariant forall k | 0 <= k < 26 :: g.letter_pressed[k] <==> old(g.letter_pressed[k]) || k in keys[..i]
    {
      g.letter_pressed[keys[i]] := true;
      i := i + 1;
    }
    assert keys[..|keys|] == keys;
  }

  /**
   * `while (update_keypress());`: each key that is down with a letter of it falling shoots exactly one letter and is
   * released; the other keys stay, and interrupts are on again.
   */
  method HandleKeys(g: Game, ghost turns: seq<int>, ghost now: int)
    requires g.Valid() && Aged(g.Letters(), turns, now)
    modifies g`shots, g`eflagsIF, g.fly.pool, g.letter_pressed
    ensures g.Valid() && g.live == old(g.live) && Aged(g.Letters(), turns, now) && g.eflagsIF
    ensures forall i: nat :: !Target(g.Letters(), g.letter_pressed[..], i)
    ensures g.shots == old(g.shots) + |Wanted(old(g.Letters()), old(g.letter_pressed[..]))|
    ensures var wanted := Wanted(old(g.Letters()), old(g.letter_pressed[..]));
      && Aimed(old(g.Letters()), g.Letters(), wanted)
      && forall k | 0 <= k < 26 :: g.letter_pressed[k] <==> old(g.letter_pressed[k]) && k !in wanted
  {
    hide View, Live, FreeList, Rising, Aged, AllOnScreen, Target, Wanted, Aimed;
    RisingBound(g.Letters());
    ghost var ls0, wanted := g.Letters(), Wanted(g.Letters(), g.letter_pressed[..]);
    AimedNowhere(ls0);
    var more := true;
    while more
      invariant g.Valid() && g.live == old(g.live) && Aged(g.Letters(), turns, now)
      invariant !more ==> g.eflagsIF && forall i: nat :: !Target(g.Letters(), g.letter_pressed[..], i)
      invariant Wanted(g.Letters(), g.letter_pressed[..]) <= wanted
      invariant Aimed(ls0, g.Letters(), wanted - Wanted(g.Letters(), g.letter_pressed[..]))
      invariant g.shots + |Wanted(g.Letters(), g.letter_pressed[..])| == old(g.shots) + |wanted|
      invariant forall k | 0 <= k < 26 :: g.letter_pressed[k] <==>
        old(g.letter_pressed[k]) && k !in wanted - Wanted(g.Letters(), g.letter_pressed[..])
      decreases g.created + 1 - g.shots, more
    {
      ghost var k;
      ghost var ls, down := g.Letters(), g.letter_pressed[..];
      more, k := g.UpdateKeypress();
      if more {
        TargetFalls(ls, down, k);
        ShotAged(ls, turns, now, k);
        ShotSatisfies(ls, down, k);
        ShotAimed(ls0, ls, wanted - Wanted(ls, down), down, k);
        assert wanted - Wanted(ls, down) + {ls[k].text} == wanted - (Wanted(ls, down) - {ls[k].text});
        assert g.letter_pressed[..] == down[ls[k].text := false];
      }
      RisingBound(g.Letters());
    }
    NobodyWanted(g.Letters(), g.letter_pressed[..]);
    assert wanted - {} == wanted;
  }

  lemma AimedNowhere(ls: seq<Letter>)
    ensures forall done | done == {} :: Aimed(ls, ls, done)
  {
  }

  lemma TargetFalls(ls: seq<Letter>, down: seq<bool>, k: nat)
    requires Target(ls, down, k)
    ensures k < |ls| && ls[k].v > 0.0 && 0 <= ls[k].text < |down|
  {
  }

  /** One simulated tick: a new letter when it is due, and a step; `fly_new` finds a free entry. */
  method Tick(g: Game, now: nat, y: int, text: nat, ghost turns: seq<int>) returns (ghost turns': seq<int>)
    requires g.Valid() && g.fly.size == 1000 && text < 26
    requires Aged(g.Letters(), turns, now) && Past(turns, now)
    modifies g, g.fly, g.fly.pool, g.letter_pressed
    ensures g.Valid() && Aged(g.Letters(), turns', now + 1) && Past(turns', now + 1)
    ensures var ls := (if now % 33 == 0 then [Letter(0.0, y, text, 0.5)] else []) + old(g.Letters());
      g.Letters() == Kept(ls) && g.hit == old(g.hit) + Hits(ls) && g.miss == old(g.miss) + Misses(ls)
    ensures g.created == old(g.created) + (if now % 33 == 0 then 1 else 0) && g.shots == old(g.shots)
    ensures g.letter_pressed[..] == if now % 33 == 0 then old(g.letter_pressed[..])[text := false]
                                    else old(g.letter_pressed[..])
  {
    hide View, Live, FreeList, Rising, Aged, AllOnScreen, Kept, Staying, Hits, Misses;
    turns' := turns;
    assert [] + g.Letters() == g.Letters();
    if now % (HZ / CHARACTER_PER_SECOND) == 0 {
      RoomForNext(g.Letters(), turns, now);
      NewLetterAged(g.Letters(), turns, now, Letter(0.0, y, text, 0.5));
      g.CreateNewLetter(y, text);
      turns' := [now / PERIOD] + turns;
    }
    if now % (HZ / UPDATE_PER_SECOND) == 0 {
      AgedSize(g.Letters(), turns', now);
      StepAged(g.Letters(), turns', now);
      StayingPast(g.Letters(), turns', now, now + 1);
      turns' := Staying(g.Letters(), turns');
      g.UpdateLetterPos();
    }
  }

  /**
   * One pass. Without a tick to catch up with only keys go down. Otherwise the keys that are down shoot, one letter
   * each, and then the ticks follow one by one.
   */
  method OnePass(g: Game, now0: nat, p: Pass, ghost turns0: seq<int>)
    returns (now: nat, ghost turns: seq<int>, ghost aimed: Screen)
    requires g.Valid() && g.fly.size == 1000 && Possible(p)
    requires Aged(g.Letters(), turns0, now0) && Past(turns0, now0) && g.created == Due(now0)
    modifies g, g.fly, g.fly.pool, g.letter_pressed
    ensures g.Valid() && now == now0 + |p.moments| && g.created == Due(now)
    ensures Aged(g.Letters(), turns, now) && Past(turns, now)
    ensures |aimed.down| == 26 && aimed.hit == old(g.hit) && aimed.miss == old(g.miss)
    ensures ScreenOf(g) == AfterTicks(aimed, now0, p.moments)
    ensures var ls, down := old(g.Letters()), Pressed(old(g.letter_pressed[..]), p.keys);
      var wanted := if p.moments == [] then {} else Wanted(ls, down);
      && g.shots == old(g.shots) + |wanted| && Aimed(ls, aimed.ls, wanted)
      && forall k | 0 <= k < 26 :: aimed.down[k] <==> down[k] && k !in wanted
  {
    hide View, Live, FreeList, Rising, Aged, AllOnScreen, Past, Due, Wanted, Pressed, Kept, Hits, Misses, Target;
    hide Aimed, AfterTick, AfterTicks;
    now, turns := now0, turns0;
    AimedNowhere(g.Letters());
    PressKeys(g, p.keys);
    var target := now + |p.moments|;
    if now == target {
      aimed := ScreenOf(g);
      NoTicks(aimed, now);
      return;
    }
    HandleKeys(g, turns, now);
    aimed := ScreenOf(g);
    ghost var shots := g.shots;
    assert p.moments[0..] == p.moments;
    while now < target
      invariant now0 <= now <= target && g.Valid() && g.created == Due(now) && g.shots == shots
      invariant Aged(g.Letters(), turns, now) && Past(turns, now)
      invariant AfterTicks(ScreenOf(g), now, p.moments[now - now0..]) == AfterTicks(aimed, now0, p.moments)
    {
      var moment := p.moments[now - now0];
      ghost var before := ScreenOf(g);
      TickNext(before, now, p.moments, now - now0);
      PressKeys(g, moment.keys);
      NextDue(now);
      turns := Tick(g, now, moment.y, moment.text, turns);
      assert ScreenOf(g) == AfterTick(before, now, moment) by { TickIs(before, now, moment); }
      now := now + 1;
    }
    assert p.moments[now - now0..] == [];
    NoTicks(ScreenOf(g), now);
  }

  ghost function ScreenOf(g: Game): Screen
    requires InPool(g.fly.pool.Length, g.live)
    reads g, g.fly, g.fly.pool, g.letter_pressed
  {
    Screen(g.Letters(), g.letter_pressed[..], g.hit, g.miss)
  }

  lemma NoTicks(s: Screen, now: nat)
    requires |s.down| == 26
    ensures AfterTicks(s, now, []) == s
  {
  }

  lemma TickIs(s: Screen, now: nat, m: Moment)
    requires |s.down| == 26 && m.text < 26
    ensures var ls := (if now % 33 == 0 then [Letter(0.0, m.y, m.text, 0.5)] else []) + s.ls;
      var pressed := Pressed(s.down, m.keys);
      AfterTick(s, now, m) == Screen(
        Kept(ls), if now % 33 == 0 then pressed[m.text := false] else pressed, s.hit + Hits(ls), s.miss + Misses(ls))
  {
  }

  /**
   * The main loop from the start of the game, for any number of passes: every allocation succeeds, never more
   * than 14 letters are on screen, and every letter that was due is on screen, hit or missed.
   */
  method Play(g: Game, passes: seq<Pass>) returns (now: nat)
    requires g.Valid() && g.fly.size == 1000 && g.live == [] && g.created == 0
    requires forall i | 0 <= i < |passes| :: Possible(passes[i])
    modifies g, g.fly, g.fly.pool, g.letter_pressed
    ensures g.Valid() && |g.live| <= 14 && |g.live| + g.hit + g.miss == (now + 32) / 33
  {
    now := 0;
    ghost var turns := [];
    var i := 0;
    while i < |passes|
      invariant i <= |passes| && g.Valid() && g.created == Due(now)
      invariant Aged(g.Letters(), turns, now) && Past(turns, now)
    {
      ghost var aimed;
      now, turns, aimed := OnePass(g, now, passes[i], turns);
      i := i + 1;
    }
    FewLetters(g.Letters(), turns, now);
  }
}
