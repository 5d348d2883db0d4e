/** The interrupt controller's latch and pin, shared by device threads and the processor. */
module Pic {
  const IRQ_BASE := 32
  const I8259_NO_INTR := 255

  type uint8 = x: int | 0 <= x < 0x100

  /** The latch after a device raises `irq`: the highest number wins. */
  function Latched(latch: uint8, irq: uint8): uint8 {
    if latch == I8259_NO_INTR || irq > latch - IRQ_BASE then (irq + IRQ_BASE) % 0x100 else latch
  }

  // ---------- the controller as the processor's thread sees it ----------

  class I8259 {
    var i8259_intr_no: uint8
    var intr: bool        // the processor's interrupt pin
    ghost var raised: set<uint8>   // requests since the last acknowledgement

    ghost predicate Valid()
      reads this
    {
      Pending(i8259_intr_no, raised) && (intr <==> raised != {})
    }

    constructor ()
      ensures Valid() && raised == {}
    {
      i8259_intr_no, intr, raised := I8259_NO_INTR, false, {};
    }

    method RaiseIntr(irq_no: uint8)
      requires Valid() && Numbered(irq_no)
      modifies this
      ensures Valid() && raised == old(raised) + {irq_no}
    {
      if i8259_intr_no == I8259_NO_INTR || (i8259_intr_no != I8259_NO_INTR && irq_no > i8259_intr_no - IRQ_BASE) {
        i8259_intr_no := (irq_no + IRQ_BASE) % 0x100;
      }
      intr := true;
      raised := raised + {irq_no};
    }

    method AckIntr()
      requires Valid()
      modifies this
      ensures Valid() && raised == {}
    {
      i8259_intr_no := I8259_NO_INTR;
      intr := false;
      raised := {};
    }

    /** `do_intr` without interference: the highest request is taken and all of them are forgotten. */
    method DoIntr(eflagsIF: bool) returns (taken: bool, intr_no: uint8)
      requires Valid()
      modifies this
      ensures Valid() && (taken <==> old(raised) != {} && eflagsIF)
      ensures taken ==> intr_no - 32 in old(raised) && raised == {}
      ensures taken ==> forall r | r in old(raised) :: r <= intr_no - 32
      ensures !taken ==> raised == old(raised)
    {
      taken, intr_no := false, 0;
      if intr && eflagsIF {
        taken := true;
        intr_no := i8259_intr_no;
        assert intr_no != I8259_NO_INTR;
        AckIntr();
      }
    }
  }

  /** The request lines whose vector neither wraps nor looks like "none". */
  predicate Numbered(irq: uint8) { irq < I8259_NO_INTR - IRQ_BASE }

  /** The latch names the highest of the requests made since the last acknowledgement. */
  predicate Pending(latch: uint8, raised: set<uint8>) {
    if raised == {} then latch == I8259_NO_INTR
    else latch != I8259_NO_INTR && latch - IRQ_BASE in raised && forall r | r in raised :: r <= latch - IRQ_BASE
  }

  lemma RaiseKeepsPending(latch: uint8, raised: set<uint8>, irq: uint8)
    requires Pending(latch, raised) && Numbered(irq)
    ensures Pending(Latched(latch, irq), raised + {irq})
  {
  }

  // ---------- threads and their steps ----------

  type Thread = nat

  /** Where a device thread is inside `i8259_raise_intr`. */
  datatype DevicePc = Outside | Locking(irq: uint8) | Holding(irq: uint8) | LatchWritten | PinWritten

  /** Where the processor is inside `do_intr` and `i8259_ack_intr`. */
  datatype CpuPc =
    | Running
    | SawPin
    | Queried(no: uint8)
    | AckLocking(no: uint8)
    | AckHolding(no: uint8)
    | AckLatchCleared(no: uint8)
    | AckPinCleared(no: uint8)

  datatype Owner = Free | Device(t: Thread) | Cpu

  datatype State = State(
    latch: uint8, pin: bool, mutex: Owner, cpu: CpuPc, devices: map<Thread, DevicePc>, stopped: bool,
    raised: set<uint8>,      // requests latched since the last acknowledgement
    entered: seq<uint8>)     // vectors handed to raise_intr

  datatype Action =
    | Call(t: Thread, irq: uint8) | Lock(t: Thread) | GiveUp(t: Thread)
    | WriteLatch(t: Thread) | WritePin(t: Thread) | Unlock(t: Thread)
    | CheckPin(eflagsIF: bool) | Query | CheckNumber | AckLock | AckGiveUp | ClearLatch | ClearPin | AckUnlock
    | Stop

  function At(s: State, t: Thread): DevicePc {
    if t in s.devices then s.devices[t] else Outside
  }

  function Goto(s: State, t: Thread, pc: DevicePc): State {
    s.(devices := s.devices[t := pc])
  }

  predicate Enabled(s: State, a: Action) {
    match a
    case Call(t, irq) => At(s, t) == Outside
    case Lock(t) => At(s, t).Locking? && s.mutex == Free
    case GiveUp(t) => At(s, t).Locking? && s.stopped
    case WriteLatch(t) => At(s, t).Holding?
    case WritePin(t) => At(s, t).LatchWritten?
    case Unlock(t) => At(s, t).PinWritten?
    case CheckPin(_) => s.cpu.Running?
    case Query => s.cpu.SawPin?
    case CheckNumber => s.cpu.Queried?
    case AckLock => s.cpu.AckLocking? && s.mutex == Free
    case AckGiveUp => s.cpu.AckLocking? && s.stopped
    case ClearLatch => s.cpu.AckHolding?
    case ClearPin => s.cpu.AckLatchCleared?
    case AckUnlock => s.cpu.AckPinCleared?
    case Stop => true
  }

  /** One step of one thread; reads and writes of the latch and of the pin are separate steps. */
  function Step(s: State, a: Action): State
    requires Enabled(s, a)
  {
    match a
    case Call(t, irq) => Goto(s, t, Locking(irq))
    case Lock(t) => Goto(s, t, Holding(At(s, t).irq)).(mutex := Device(t))
    case GiveUp(t) => Goto(s, t, Outside)
    case WriteLatch(t) =>
      var irq := At(s, t).irq;
      Goto(s, t, LatchWritten).(latch := Latched(s.latch, irq), raised := s.raised + {irq})
    case WritePin(t) => Goto(s, t, PinWritten).(pin := true)
    case Unlock(t) => Goto(s, t, Outside).(mutex := Free)
    case CheckPin(eflagsIF) => if s.pin && eflagsIF then s.(cpu := SawPin) else s
    case Query => s.(cpu := Queried(s.latch))
    case CheckNumber => s.(cpu := AckLocking(s.cpu.no))
    case AckLock => s.(cpu := AckHolding(s.cpu.no), mutex := Cpu)
    case AckGiveUp => s.(cpu := Running, entered := s.entered + [s.cpu.no])
    case ClearLatch => s.(cpu := AckLatchCleared(s.cpu.no), latch := I8259_NO_INTR, raised := {})
    case ClearPin => s.(cpu := AckPinCleared(s.cpu.no), pin := false)
    case AckUnlock => s.(cpu := Running, mutex := Free, entered := s.entered + [s.cpu.no])
    case Stop => s.(stopped := true)
  }

  const INITIAL := State(I8259_NO_INTR, false, Free, Running, map[], false, {}, [])

  // ---------- what every step keeps ----------

  predicate InsideDevice(pc: DevicePc) { pc.Holding? || pc.LatchWritten? || pc.PinWritten? }

  predicate InsideAck(pc: CpuPc) { pc.AckHolding? || pc.AckLatchCleared? || pc.AckPinCleared? }

  /** Exactly the owner of the mutex is between locking and unlocking it. */
  ghost predicate Exclusive(s: State) {
    && (InsideAck(s.cpu) <==> s.mutex == Cpu)
    && forall t :: InsideDevice(At(s, t)) <==> s.mutex == Device(t)
  }

  /** Requests on their way come from `R`. */
  ghost predicate AllWithin(s: State, R: set<uint8>) {
    forall t :: (At(s, t).Locking? || At(s, t).Holding?) ==> At(s, t).irq in R
  }

  /** Pin against requests: equal unless the owner of the mutex is between writing latch and pin. */
  predicate PinFits(s: State) {
    match s.mutex
    case Free => s.pin <==> s.raised != {}
    case Cpu =>
      if s.cpu.AckHolding? then s.pin && s.raised != {}
      else if s.cpu.AckLatchCleared? then s.pin && s.raised == {}
      else !s.pin && s.raised == {}
    case Device(t) =>
      if At(s, t).Holding? then s.pin <==> s.raised != {}
      else if At(s, t).LatchWritten? then s.raised != {}
      else s.pin && s.raised != {}
  }

  /** From the moment it saw the pin until it clears the latch, the processor can rely on a request. */
  predicate CpuExpects(s: State) {
    s.cpu.SawPin? || s.cpu.Queried? || s.cpu.AckLocking? ==> s.raised != {}
  }

  /** The latch says "none" exactly when nothing is pending, and the processor never holds that number. */
  predicate NeverNone(s: State) {
    && (s.latch != I8259_NO_INTR <==> s.raised != {})
    && (!s.cpu.Running? && !s.cpu.SawPin? ==> s.cpu.no != I8259_NO_INTR)
    && forall i | 0 <= i < |s.entered| :: s.entered[i] != I8259_NO_INTR
  }

  /** The latch names the highest request; the number the processor holds is still one of those pending. */
  predicate Ordered(s: State) {
    && Pending(s.latch, s.raised)
    && (s.cpu.Queried? || s.cpu.AckLocking? || s.cpu.AckHolding? ==>
      s.cpu.no - IRQ_BASE in s.raised && s.cpu.no <= s.latch)
  }

  const LOOKS_LIKE_NONE: uint8 := 223   // I8259_NO_INTR - IRQ_BASE

  predicate AllNumbered(R: set<uint8>) {
    forall r | r in R :: Numbered(r)
  }

  ghost predicate Inv(s: State, R: set<uint8>) {
    && Exclusive(s) && AllWithin(s, R) && PinFits(s) && CpuExpects(s)
    && (LOOKS_LIKE_NONE !in R ==> NeverNone(s))
    && (AllNumbered(R) ==> Ordered(s))
  }

  predicate Within(a: Action, R: set<uint8>) { a.Call? ==> a.irq in R }

  lemma StepKeepsInv(s: State, a: Action, R: set<uint8>)
    requires Inv(s, R) && Enabled(s, a) && Within(a, R)
    ensures Inv(Step(s, a), R)
  {
    hide Exclusive, AllWithin, Pending, PinFits, CpuExpects, NeverNone, Ordered, AllNumbered;
    StepKeepsExclusive(s, a);
    StepKeepsWithin(s, a, R);
    StepKeepsPin(s, a);
    StepKeepsExpectation(s, a);
    if LOOKS_LIKE_NONE !in R {
      StepNeverNone(s, a, R);
    }
    if AllNumbered(R) {
      StepKeepsOrder(s, a, R);
    }
  }

  lemma StepKeepsExclusive(s: State, a: Action)
    requires Exclusive(s) && Enabled(s, a)
    ensures Exclusive(Step(s, a))
  {
  }

  lemma StepKeepsWithin(s: State, a: Action, R: set<uint8>)
    requires AllWithin(s, R) && Enabled(s, a) && Within(a, R)
    ensures AllWithin(Step(s, a), R)
  {
    var s' := Step(s, a);
    forall t
      ensures (At(s', t).Locking? || At(s', t).Holding?) ==> At(s', t).irq in R
    {
      assert At(s', t) == At(s, t) || (a.Call? && At(s', t) == Locking(a.irq))
        || (a.Lock? && At(s', t) == Holding(At(s, t).irq))
        || (!At(s', t).Locking? && !At(s', t).Holding?);
    }
  }

  /** Only the owner of the mutex writes latch or pin. */
  lemma OwnerWrites(s: State, a: Action)
    requires Exclusive(s) && Enabled(s, a)
    ensures (a.WriteLatch? || a.WritePin? || a.Unlock?) ==> s.mutex == Device(a.t)
    ensures (a.ClearLatch? || a.ClearPin? || a.AckUnlock?) ==> s.mutex == Cpu
    ensures (a.Call? || a.GiveUp?) ==> s.mutex != Device(a.t)
    ensures a.AckGiveUp? || a.CheckPin? || a.Query? || a.CheckNumber? ==> s.mutex != Cpu
  {
    if a.WriteLatch? || a.WritePin? || a.Unlock? {
      assert InsideDevice(At(s, a.t));
    }
    if a.Call? || a.GiveUp? {
      assert !InsideDevice(At(s, a.t));
    }
  }

  lemma StepKeepsPin(s: State, a: Action)
    requires Exclusive(s) && PinFits(s) && CpuExpects(s) && Enabled(s, a)
    ensures PinFits(Step(s, a))
  {
    OwnerWrites(s, a);
    hide Exclusive;
  }

  lemma StepKeepsExpectation(s: State, a: Action)
    requires Exclusive(s) && PinFits(s) && CpuExpects(s) && Enabled(s, a)
    ensures CpuExpects(Step(s, a))
  {
    OwnerWrites(s, a);
    PinMeansRequest(s);
    hide Exclusive, PinFits;
  }

  lemma PinMeansRequest(s: State)
    requires Exclusive(s) && PinFits(s)
    ensures s.pin && s.mutex != Cpu ==> s.raised != {}
    ensures s.cpu.Running? || s.cpu.SawPin? || s.cpu.Queried? || s.cpu.AckLocking? ==> s.mutex != Cpu
  {
  }

  lemma StepNeverNone(s: State, a: Action, R: set<uint8>)
    requires LOOKS_LIKE_NONE !in R && AllWithin(s, R) && CpuExpects(s) && NeverNone(s) && Enabled(s, a)
    ensures NeverNone(Step(s, a))
  {
    if a.WriteLatch? {
      assert At(s, a.t).irq in R;
    }
    hide AllWithin;
  }

  lemma StepKeepsOrder(s: State, a: Action, R: set<uint8>)
    requires AllNumbered(R) && AllWithin(s, R) && CpuExpects(s) && Ordered(s) && Enabled(s, a)
    ensures Ordered(Step(s, a))
  {
    if a.WriteLatch? {
      assert At(s, a.t).irq in R;
      RaiseKeepsPending(s.latch, s.raised, At(s, a.t).irq);
    }
    hide AllWithin, AllNumbered;
  }

  // ---------- every run ----------

  predicate Runs(s: State, actions: seq<Action>)
    decreases |actions|
  {
    actions == [] || (Enabled(s, actions[0]) && Runs(Step(s, actions[0]), actions[1..]))
  }

  function After(s: State, actions: seq<Action>): State
    requires Runs(s, actions)
    decreases |actions|
  {
    if actions == [] then s else After(Step(s, actions[0]), actions[1..])
  }

  predicate CallsWithin(actions: seq<Action>, R: set<uint8>) {
    forall i | 0 <= i < |actions| :: Within(actions[i], R)
  }

  lemma {:induction false} RunKeepsInv(s: State, actions: seq<Action>, R: set<uint8>)
    requires Inv(s, R) && Runs(s, actions) && CallsWithin(actions, R)
    ensures Inv(After(s, actions), R)
    decreases |actions|
  {
    if actions != [] {
      StepKeepsInv(s, actions[0], R);
      hide Inv;
      RunKeepsInv(Step(s, actions[0]), actions[1..], R);
    }
  }

  lemma InitialInv(R: set<uint8>)
    ensures Inv(INITIAL, R)
  {
  }

  /**
   * Under any interleaving of any number of devices: the critical sections exclude each other, and
   * with the mutex free the pin is up exactly when a request is pending.
   */
  lemma EveryRunIsSafe(actions: seq<Action>)
    requires Runs(INITIAL, actions)
    ensures var s := After(INITIAL, actions);
      && (s.mutex == Free ==> (s.pin <==> s.raised != {}))
      && (forall t, u | InsideDevice(At(s, t)) && InsideDevice(At(s, u)) :: t == u)
      && (InsideAck(s.cpu) ==> forall t :: !InsideDevice(At(s, t)))
  {
    var R := set a | a in actions && a.Call? :: a.irq;   // the requests that the run happens to make
    InitialInv(R);
    RunKeepsInv(INITIAL, actions, R);
  }

  /**
   * With requests from `R` the assertion in `do_intr` can never fail if and only if `R` does not hold
   * the one number that the latch takes for "none".
   */
  lemma AssertionHolds(R: set<uint8>)
    ensures (forall actions | Runs(INITIAL, actions) && CallsWithin(actions, R) ::
              After(INITIAL, actions).cpu != Queried(255))
       <==> 223 !in R
  {
    if LOOKS_LIKE_NONE in R {
      WrappedNumberBreaksAssertion(R);
    } else {
      forall actions | Runs(INITIAL, actions) && CallsWithin(actions, R)
        ensures After(INITIAL, actions).cpu != Queried(I8259_NO_INTR)
      {
        InitialInv(R);
        RunKeepsInv(INITIAL, actions, R);
      }
    }
  }

  /** With interrupts off whenever the processor looks, nothing is ever delivered, whatever the devices do. */
  lemma {:induction false} NothingTakenWithoutIF(s: State, actions: seq<Action>)
    requires Runs(s, actions) && s.cpu.Running?
    requires forall i | 0 <= i < |actions| && actions[i].CheckPin? :: !actions[i].eflagsIF
    ensures After(s, actions).cpu.Running? && After(s, actions).entered == s.entered
    decreases |actions|
  {
    if actions != [] {
      assert actions[0].CheckPin? ==> !actions[0].eflagsIF;
      NothingTakenWithoutIF(Step(s, actions[0]), actions[1..]);
    }
  }

  /** The latch names the highest request on every run if and only if all requests are below 223. */
  lemma LatchNamesHighest(R: set<uint8>)
    ensures (forall actions | Runs(INITIAL, actions) && CallsWithin(actions, R) ::
              Pending(After(INITIAL, actions).latch, After(INITIAL, actions).raised))
       <==> forall irq | irq in R :: irq < 223
  {
    if AllNumbered(R) {
      forall actions | Runs(INITIAL, actions) && CallsWithin(actions, R)
        ensures Pending(After(INITIAL, actions).latch, After(INITIAL, actions).raised)
      {
        InitialInv(R);
        RunKeepsInv(INITIAL, actions, R);
      }
    } else {
      var irq :| irq in R && !Numbered(irq);
      RaiseRuns(INITIAL, 0, irq);
      RaiseWithin(0, irq, R);
      var s := After(INITIAL, Raise(0, irq));
      assert s.raised == {irq};
      hide Raise;
      assert !Pending(s.latch, s.raised);
    }
  }

  lemma RaiseWithin(t: Thread, irq: uint8, R: set<uint8>)
    requires irq in R
    ensures CallsWithin(Raise(t, irq), R)
  {
  }

  lemma {:induction false} RunsConcat(s: State, a: seq<Action>, b: seq<Action>)
    requires Runs(s, a) && Runs(After(s, a), b)
    ensures Runs(s, a + b) && After(s, a + b) == After(After(s, a), b)
    decreases |a|
  {
    if a == [] {
      assert a + b == b;
    } else {
      RunsConcat(Step(s, a[0]), a[1..], b);
      assert (a + b)[1..] == a[1..] + b;
    }
  }

  lemma Prepend(s: State, a: Action, rest: seq<Action>)
    requires Enabled(s, a) && Runs(Step(s, a), rest)
    ensures Runs(s, [a] + rest) && After(s, [a] + rest) == After(Step(s, a), rest)
  {
    assert ([a] + rest)[1..] == rest;
  }

  /** A whole call of `i8259_raise_intr` without interference, and a whole acknowledgement. */
  function Raise(t: Thread, irq: uint8): seq<Action> {
    [Call(t, irq)] + ([Lock(t)] + ([WriteLatch(t)] + ([WritePin(t)] + ([Unlock(t)] + []))))
  }

  function Acknowledge(): seq<Action> {
    [CheckNumber] + ([AckLock] + ([ClearLatch] + ([ClearPin] + ([AckUnlock] + []))))
  }

  lemma RaiseRuns(s: State, t: Thread, irq: uint8)
    requires s.mutex == Free && At(s, t) == Outside
    ensures Runs(s, Raise(t, irq))
    ensures After(s, Raise(t, irq)) ==
      s.(latch := Latched(s.latch, irq), pin := true, raised := s.raised + {irq}, devices := s.devices[t := Outside])
  {
    hide Latched, Runs, After;
    var s1 := Step(s, Call(t, irq));
    var s2 := Step(s1, Lock(t));
    var s3 := Step(s2, WriteLatch(t));
    var s4 := Step(s3, WritePin(t));
    var s5 := Step(s4, Unlock(t));
    NoActions(s5);
    Prepend(s4, Unlock(t), []);
    Prepend(s3, WritePin(t), [Unlock(t)] + []);
    Prepend(s2, WriteLatch(t), [WritePin(t)] + ([Unlock(t)] + []));
    Prepend(s1, Lock(t), [WriteLatch(t)] + ([WritePin(t)] + ([Unlock(t)] + [])));
    Prepend(s, Call(t, irq), [Lock(t)] + ([WriteLatch(t)] + ([WritePin(t)] + ([Unlock(t)] + []))));
    assert s5.devices == s.devices[t := Outside];
  }

  lemma NoActions(s: State)
    ensures Runs(s, []) && After(s, []) == s
  {
  }

  lemma AcknowledgeRuns(s: State)
    requires s.mutex == Free && s.cpu.Queried?
    ensures Runs(s, Acknowledge())
    ensures After(s, Acknowledge()) ==
      s.(latch := I8259_NO_INTR, pin := false, raised := {}, cpu := Running, entered := s.entered + [s.cpu.no])
  {
    hide Runs, After;
    var s1 := Step(s, CheckNumber);
    var s2 := Step(s1, AckLock);
    var s3 := Step(s2, ClearLatch);
    var s4 := Step(s3, ClearPin);
    var s5 := Step(s4, AckUnlock);
    NoActions(s5);
    Prepend(s4, AckUnlock, []);
    Prepend(s3, ClearPin, [AckUnlock] + []);
    Prepend(s2, ClearLatch, [ClearPin] + ([AckUnlock] + []));
    Prepend(s1, AckLock, [ClearLatch] + ([ClearPin] + ([AckUnlock] + [])));
    Prepend(s, CheckNumber, [AckLock] + ([ClearLatch] + ([ClearPin] + ([AckUnlock] + []))));
  }

  /** Undisturbed, a request between query and acknowledgement disappears. */
  lemma LateRequestIsLost(s: State, t: Thread, irq: uint8)
    requires s.mutex == Free && s.cpu.Queried? && At(s, t) == Outside
    ensures Runs(s, Raise(t, irq) + Acknowledge())
    ensures After(s, Raise(t, irq) + Acknowledge()) ==
      s.(latch := I8259_NO_INTR, pin := false, raised := {}, cpu := Running,
         entered := s.entered + [s.cpu.no], devices := s.devices[t := Outside])
  {
    RaiseRuns(s, t, irq);
    var r := After(s, Raise(t, irq));
    AcknowledgeRuns(r);
    hide Raise, Acknowledge;
    RunsConcat(s, Raise(t, irq), Acknowledge());
  }

  function Seen(irq: uint8): seq<Action> {
    Raise(0, irq) + ([CheckPin(true)] + ([Query] + []))
  }

  lemma SeenRuns(irq: uint8)
    ensures Runs(INITIAL, Seen(irq))
    ensures After(INITIAL, Seen(irq)) ==
      INITIAL.(latch := (irq + IRQ_BASE) % 0x100, pin := true, raised := {irq}, devices := map[0 := Outside],
               cpu := Queried((irq + IRQ_BASE) % 0x100))
  {
    RaiseRuns(INITIAL, 0, irq);
    var r := After(INITIAL, Raise(0, irq));
    assert r == INITIAL.(latch := (irq + IRQ_BASE) % 0x100, pin := true, raised := {irq}, devices := map[0 := Outside]);
    hide Runs, After, Raise;
    NoActions(Step(Step(r, CheckPin(true)), Query));
    Prepend(Step(r, CheckPin(true)), Query, []);
    Prepend(r, CheckPin(true), [Query] + []);
    RunsConcat(INITIAL, Raise(0, irq), [CheckPin(true)] + ([Query] + []));
  }

  /** A run on which `first` is delivered and `second`, raised after the query, is not, whatever its number. */
  lemma RequestLostFromStart(first: uint8, second: uint8)
    ensures Runs(INITIAL, Seen(first) + (Raise(1, second) + Acknowledge()))
    ensures var s := After(INITIAL, Seen(first) + (Raise(1, second) + Acknowledge()));
      s.entered == [(first + 32) % 0x100] && s.raised == {} && !s.pin && s.cpu == Running
  {
    SeenRuns(first);
    LateRequestIsLost(After(INITIAL, Seen(first)), 1, second);
    hide Runs, After, Seen, Raise, Acknowledge;
    RunsConcat(INITIAL, Seen(first), Raise(1, second) + Acknowledge());
  }

  /** The number 223 is latched as 255, so a run with it fails the assertion. */
  lemma WrappedNumberBreaksAssertion(R: set<uint8>)
    requires 223 in R
    ensures var actions := Seen(223);
      Runs(INITIAL, actions) && CallsWithin(actions, R) && After(INITIAL, actions).cpu == Queried(255)
  {
    SeenRuns(LOOKS_LIKE_NONE);
    RaiseWithin(0, LOOKS_LIKE_NONE, R);
  }

  // ---------- which requests an acknowledgement loses ----------

  /** The requests latched along a run. */
  function LatchedIn(s: State, actions: seq<Action>): set<uint8>
    requires Runs(s, actions)
    decreases |actions|
  {
    if actions == [] then {}
    else
      (if actions[0].WriteLatch? then {At(s, actions[0].t).irq} else {}) + LatchedIn(Step(s, actions[0]), actions[1..])
  }

  /** No step by which the processor completes an acknowledgement. */
  predicate Unfinished(actions: seq<Action>) {
    forall i | 0 <= i < |actions| :: !actions[i].AckUnlock? && !actions[i].AckGiveUp?
  }

  predicate Uncleared(actions: seq<Action>) {
    Unfinished(actions) && forall i | 0 <= i < |actions| :: !actions[i].ClearLatch?
  }

  predicate Awaiting(pc: CpuPc) { pc.Queried? || pc.AckLocking? || pc.AckHolding? }

  /** Until the latch is cleared requests only accumulate, and the processor keeps its number. */
  lemma {:induction false} RequestsAccumulate(s: State, actions: seq<Action>)
    requires Runs(s, actions) && Uncleared(actions) && Awaiting(s.cpu)
    ensures var t := After(s, actions);
      t.raised == s.raised + LatchedIn(s, actions) && Awaiting(t.cpu) && t.cpu.no == s.cpu.no && t.entered == s.entered
    decreases |actions|
  {
    if actions != [] {
      assert Uncleared(actions[1..]);
      RequestsAccumulate(Step(s, actions[0]), actions[1..]);
    }
  }

  /** Between clearing the latch and unlocking, the processor owns the mutex and nothing is latched. */
  lemma {:induction false} NothingLatched(s: State, actions: seq<Action>)
    requires Exclusive(s) && Runs(s, actions) && Unfinished(actions) && (s.cpu.AckLatchCleared? || s.cpu.AckPinCleared?)
    ensures var t := After(s, actions);
      && t.raised == s.raised && t.latch == s.latch && t.entered == s.entered
      && (t.cpu.AckLatchCleared? || t.cpu.AckPinCleared?) && t.cpu.no == s.cpu.no
    ensures LatchedIn(s, actions) == {}
    decreases |actions|
  {
    if actions != [] {
      OwnerWrites(s, actions[0]);
      StepKeepsExclusive(s, actions[0]);
      hide Exclusive;
      NothingLatched(Step(s, actions[0]), actions[1..]);
    }
  }

  /** What clearing the latch makes the machine forget: every pending request but the one to be entered. */
  function Lost(s: State): set<uint8>
    requires s.cpu.AckHolding?
  {
    set r | r in s.raised && r != s.cpu.no - IRQ_BASE
  }

  /** A run from a query to the end of the acknowledgement clears the latch once. */
  lemma {:induction false} ClearsOnce(s: State, actions: seq<Action>) returns (i: nat)
    requires Exclusive(s) && Runs(s, actions) && Unfinished(actions) && Awaiting(s.cpu)
    requires After(s, actions).cpu.AckPinCleared?
    ensures i < |actions| && Uncleared(actions[..i]) && actions[i] == ClearLatch
    ensures Runs(s, actions[..i]) && After(s, actions[..i]).cpu.AckHolding?
    ensures Runs(Step(After(s, actions[..i]), ClearLatch), actions[i + 1..])
    ensures After(Step(After(s, actions[..i]), ClearLatch), actions[i + 1..]) == After(s, actions)
    decreases |actions|
  {
    if actions[0].ClearLatch? {
      i := 0;
      assert actions[..0] == [] && actions[0 + 1..] == actions[1..];
    } else {
      StepKeepsExclusive(s, actions[0]);
      hide Exclusive;
      var j := ClearsOnce(Step(s, actions[0]), actions[1..]);
      i := j + 1;
      assert actions[..i] == [actions[0]] + actions[1..][..j];
      assert actions[i + 1..] == actions[1..][j + 1..];
      Prepend(s, actions[0], actions[1..][..j]);
    }
  }

  /**
   * From any reachable state in which the processor has queried a number, under any interleaving up to
   * the end of its acknowledgement: exactly that number is entered, nothing is pending afterwards, and
   * the requests pending when the latch is cleared were those at the query and those latched since.
   * All but the entered one are lost; so none is if and only if there were no others.
   */
  lemma AcknowledgementForgets(s: State, actions: seq<Action>, R: set<uint8>) returns (i: nat)
    requires Inv(s, R) && s.cpu.Queried? && Runs(s, actions) && CallsWithin(actions, R) && Unfinished(actions)
    requires Enabled(After(s, actions), AckUnlock)
    ensures i < |actions| && actions[i] == ClearLatch && Runs(s, actions[..i]) && After(s, actions[..i]).cpu.AckHolding?
    ensures var cleared, t := After(s, actions[..i]), Step(After(s, actions), AckUnlock);
      var request := s.cpu.no - 32;
      && cleared.raised == s.raised + LatchedIn(s, actions[..i])
      && t.entered == s.entered + [s.cpu.no] && t.raised == {} && t.latch == I8259_NO_INTR && !t.pin
      && (AllNumbered(R) ==>
            && request in cleared.raised
            && (Lost(cleared) == {} <==> s.raised + LatchedIn(s, actions[..i]) == {request}))
  {
    i := ClearsOnce(s, actions);
    RequestsAccumulate(s, actions[..i]);
    var cleared := After(s, actions[..i]);
    assert CallsWithin(actions[..i], R);
    RunKeepsInv(s, actions[..i], R);
    StepKeepsExclusive(cleared, ClearLatch);
    NothingLatched(Step(cleared, ClearLatch), actions[i + 1..]);
    RunKeepsInv(s, actions, R);
    if AllNumbered(R) {
      NothingLost(cleared);
    }
  }

  lemma NothingLost(s: State)
    requires s.cpu.AckHolding? && s.cpu.no - IRQ_BASE in s.raised
    ensures Lost(s) == {} <==> s.raised == {s.cpu.no - IRQ_BASE}
  {
    if Lost(s) == {} {
      forall r | r in s.raised
        ensures r == s.cpu.no - IRQ_BASE
      {
        assert r !in Lost(s);
      }
    }
  }
}
