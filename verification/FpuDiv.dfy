/** `internal_float_div`. */
module FpuDiv {
  import opened Powers
  import opened Binary32
  import opened Rounding
  import opened Ieee754
  import opened FpuNormalize

  const CORNER_DIV := [
    Rule(P_ZERO_F, P_ZERO_F, N_NAN_F),
    Rule(N_ZERO_F, P_ZERO_F, N_NAN_F),
    Rule(P_ZERO_F, N_ZERO_F, N_NAN_F),
    Rule(N_ZERO_F, N_ZERO_F, N_NAN_F),
    Rule(P_INF_F, P_ZERO_F, P_INF_F),
    Rule(N_INF_F, P_ZERO_F, N_INF_F),
    Rule(P_INF_F, N_ZERO_F, N_INF_F),
    Rule(N_INF_F, N_ZERO_F, P_INF_F),
    Rule(P_INF_F, P_INF_F, N_NAN_F),
    Rule(N_INF_F, P_INF_F, N_NAN_F),
    Rule(P_INF_F, N_INF_F, N_NAN_F),
    Rule(N_INF_F, N_INF_F, N_NAN_F)
  ]

  const TOP := 0x8000_0000_0000_0000   // 2^63

  // ---------- the operands of the integer division ----------

  /** How far a significand is shifted to set bit 63. */
  function LeftShifts(s: nat): nat
    requires s > 0
    decreases TOP - s
  {
    if s >= TOP then 0 else 1 + LeftShifts(2 * s)
  }

  function LeftJustified(s: nat): (A: nat)
    requires s > 0
    ensures A >= TOP
    decreases TOP - s
  {
    if s >= TOP then s else LeftJustified(2 * s)
  }

  /** How many factors of two a significand has. */
  function Twos(s: nat): nat
    requires s > 0
  {
    if s % 2 == 1 then 0 else 1 + Twos(s / 2)
  }

  function OddPart(s: nat): (B: nat)
    requires s > 0
    ensures 0 < B <= s && B % 2 == 1
  {
    if s % 2 == 1 then s else OddPart(s / 2)
  }

  lemma {:induction false} LeftJustifiedIs(s: nat)
    requires s > 0
    ensures LeftJustified(s) == s * Pow2(LeftShifts(s))
    decreases TOP - s
  {
    if s < TOP {
      LeftJustifiedIs(2 * s);
      MulAssoc(s, 2, Pow2(LeftShifts(2 * s)), Pow2(LeftShifts(s)));
    }
  }

  lemma {:induction false} OddPartIs(s: nat)
    requires s > 0
    ensures s == OddPart(s) * Pow2(Twos(s))
  {
    if s % 2 == 0 {
      OddPartIs(s / 2);
      MulAssoc(OddPart(s), 2, Pow2(Twos(s / 2)), Pow2(Twos(s)));
      MulAssoc(2, OddPart(s), Pow2(Twos(s / 2)), s / 2);
    }
  }

  // ---------- rounding the floor of a quotient ----------

  /** How many of the places below the leading 27 bits of F, or below 2^-149, there are. */
  function Shifts(F: nat, E: int): (t: nat)
    ensures E + t >= 1
    decreases F + if E < 1 then 1 - E else 0
  {
    if F < CARRY && E >= 1 then 0 else 1 + Shifts(F / 2, E + 1)
  }

  /** The bits of F that the rounding drops are 100..0, and the kept ones are even. */
  predicate AtMidpointAboveEven(F: nat, E: int) {
    var k := Shifts(F, E) + 3;
    F % Pow2(k) == Pow2(k - 1) && F / Pow2(k) % 2 == 0
  }

  /** Truncating the quotient A/B hides that it lies above a midpoint. */
  predicate StickyLost(A: nat, B: nat, E: int)
    requires B > 0
  {
    var F := A / B;
    A % B != 0 && E + Shifts(F, E) <= 254 && AtMidpointAboveEven(F, E)
  }

  lemma {:induction false} ShiftsIs(F: nat, E: int)
    requires F >= LEADING || E <= 1
    ensures var t := Shifts(F, E); var h := F / Pow2(t + 3);
      h < 2 * HIDDEN && (E + t == 1 || h >= HIDDEN)
    decreases F + if E < 1 then 1 - E else 0
  {
    if F < CARRY && E >= 1 {
      assert Pow2(3) == 8;
    } else {
      ShiftsIs(F / 2, E + 1);
      HalveThenShift(F, Shifts(F / 2, E + 1) + 3);
    }
  }

  /** Comparing A with multiples of B is comparing the floor of A/B with the factor. */
  lemma FloorOrder(A: nat, B: nat, m: nat, L: nat)
    requires B > 0 && L > 0
    ensures A / B < m <==> A * L < m * L * B
    ensures A / B == m ==> (A * L == m * L * B <==> A % B == 0)
    ensures A / B > m ==> A * L > m * L * B
  {
    var F := A / B;
    DivMod(A, B);
    MulAssoc(m, B, L, B * L);
    MulAssoc(m, L, B, L * B);
    ScaleOrder(A, m * B, L);
    ScaleOrder(m * B, A, L);
    if F < m {
      MulLe(F + 1, m, B);
      MulAdd(F, 1, B);
    } else if F > m {
      MulLe(m + 1, F, B);
      MulAdd(m, 1, B);
    }
  }

  /** The two floats around F, and their midpoint, as multiples of the unit. */
  lemma FloorBetween(F: nat, E: int, t: nat, h: nat, n: nat, m: nat)
    requires t == Shifts(F, E) && h == F / Pow2(t + 3) && E + t <= 254
    requires F >= CARRY && n == (E + t - 1) * HIDDEN + h && m == h * Pow2(t + 3) + Pow2(t + 2)
    ensures n < INF && n % 2 == h % 2
    ensures var lo, hi := h * Pow2(t + 3), (h + 1) * Pow2(t + 3);
      && Grid(n, Den(E)) == lo * Lift(E) && Grid(n + 1, Den(E)) == hi * Lift(E)
      && lo <= F < hi && lo + hi == 2 * m
    ensures F == m <==> F % Pow2(t + 3) == Pow2(t + 2)
  {
    ShiftsIs(F, E);
    SameParity(E + t, h);
    var T, L := Pow2(t + 3), Lift(E);
    UnitAt(E, t);
    assert T == 8 * Pow2(t) by { Pow2Sum(3, t); assert Pow2(3) == 8; }
    MulAssoc(8, Pow2(t), L, Pow2(t) * L);
    GridAt(E + t, h, Den(E));
    GridAt(E + t, h + 1, Den(E));
    MulAssoc(h, T, L, T * L);
    MulAssoc(h + 1, T, L, T * L);
    MulAdd(h, 1, T);
    DivMod(F, T);
  }

  /** Within range, the floor rounds like the quotient unless the sticky bit is lost. */
  lemma FloorRoundsInRange(A: nat, B: nat, E: int)
    requires B > 0 && A / B >= CARRY && E + Shifts(A / B, E) <= 254
    ensures RoundNE(A * Lift(E), Den(E) * B) ==
            RoundNE(A / B * Lift(E), Den(E)) + if StickyLost(A, B, E) then 1 else 0
  {
    hide Grid, Lift, Den, Shifts, Pow2;
    var F, L, D := A / B, Lift(E), Den(E);
    var t := Shifts(F, E);
    var h := F / Pow2(t + 3);
    var n, m := (E + t - 1) * HIDDEN + h, h * Pow2(t + 3) + Pow2(t + 2);
    FloorBetween(F, E, t, h, n, m);
    GridScale(n, D, B);
    GridScale(n + 1, D, B);
    TwoRoundings(A, B, L, D, h * Pow2(t + 3), (h + 1) * Pow2(t + 3), m, n);
  }

  lemma TwoRoundings(A: nat, B: nat, L: nat, D: nat, lo: nat, hi: nat, m: nat, n: nat)
    requires B > 0 && L > 0 && D > 0 && n < INF
    requires lo <= A / B < hi && lo + hi == 2 * m
    requires Grid(n, D) == lo * L && Grid(n + 1, D) == hi * L
    requires Grid(n, D * B) == lo * L * B && Grid(n + 1, D * B) == hi * L * B
    ensures RoundNE(A * L, D * B) ==
            RoundNE(A / B * L, D) + if A % B != 0 && A / B == m && n % 2 == 0 then 1 else 0
  {
    hide Grid;
    FloorBothSides(A, B, L, lo, hi, m);
    RoundBetween(A / B * L, D, n);
    RoundBetween(A * L, D * B, n);
  }

  lemma FloorBothSides(A: nat, B: nat, L: nat, lo: nat, hi: nat, m: nat)
    requires B > 0 && L > 0 && lo <= A / B < hi && lo + hi == 2 * m
    ensures var F := A / B;
      && lo * L <= F * L < hi * L
      && lo * L * B <= A * L < hi * L * B
      && (F < m <==> 2 * (F * L) < lo * L + hi * L)
      && (F == m <==> 2 * (F * L) == lo * L + hi * L)
      && (F < m <==> 2 * (A * L) < lo * L * B + hi * L * B)
      && (F == m ==> (2 * (A * L) == lo * L * B + hi * L * B <==> A % B == 0))
      && (F > m ==> 2 * (A * L) > lo * L * B + hi * L * B)
  {
    var F := A / B;
    FloorOrder(A, B, lo, L);
    FloorOrder(A, B, hi, L);
    FloorOrder(A, B, m, L);
    ScaleOrder(lo, F, L);
    ScaleOrder(F, hi, L);
    ScaleOrder(F, m, L);
    MulAdd(lo, hi, L);
    MulAssoc(2, m, L, m * L);
    MulAdd(lo * L, hi * L, B);
    MulAssoc(2, m * L, B, m * L * B);
  }

  /** Past the largest float both go to infinity. */
  lemma FloorRoundsToInfinity(A: nat, B: nat, E: int)
    requires B > 0 && A / B >= CARRY && E + Shifts(A / B, E) >= 255
    ensures RoundNE(A * Lift(E), Den(E) * B) == RoundNE(A / B * Lift(E), Den(E)) == INF
  {
    hide Grid, Lift, Den, Shifts, Pow2, RoundNE;
    var F, L, D := A / B, Lift(E), Den(E);
    var t := Shifts(F, E);
    ShiftsIs(F, E);
    UnitAt(E, t);
    AtLeastLeading(F, t);
    MulLe(LEADING * Pow2(t), F, L);
    MulAssoc(LEADING, Pow2(t), L, Pow2(t) * L);
    TooLarge(F * L, D, E + t - 1, Pow2(t) * L);
    BothInfinite(A, B, L, D);
  }

  lemma AtLeastLeading(F: nat, t: nat)
    requires F / Pow2(t + 3) >= HIDDEN
    ensures F >= LEADING * Pow2(t)
  {
    Pow2Sum(3, t);
    assert Pow2(3) == 8;
    DivMod(F, Pow2(t + 3));
    MulLe(HIDDEN, F / Pow2(t + 3), Pow2(t + 3));
  }

  lemma BothInfinite(A: nat, B: nat, L: nat, D: nat)
    requires B > 0 && D > 0 && L > 0 && A / B * L >= Grid(INF, D)
    ensures RoundNE(A * L, D * B) == RoundNE(A / B * L, D) == INF
  {
    RoundHuge(A / B * L, D);
    GridScale(INF, D, B);
    FloorOrder(A, B, A / B, L);
    MulLe(Grid(INF, D), A / B * L, B);
    RoundHuge(A * L, D * B);
  }

  lemma FloorLosesCarry(A: nat, B: nat, E: int)
    requires B > 0 && A / B >= CARRY
    ensures CarryLost(A * Lift(E), Den(E) * B) == CarryLost(A / B * Lift(E), Den(E))
  {
    if E >= 4 {
      NoCarryLost(A, B, Lift(E));
    } else {
      CarryLostEdges(A, B, Pow2(3 - E), (2 * HIDDEN - 1) * Pow2(3 - E), 2 * HIDDEN * Pow2(3 - E));
    }
  }

  lemma NoCarryLost(A: nat, B: nat, L: nat)
    requires B > 0 && A / B >= CARRY && L > 0
    ensures !CarryLost(A * L, 1 * B) && !CarryLost(A / B * L, 1)
  {
    FloorOrder(A, B, CARRY, L);
    MulLe(CARRY, A / B, L);
    MulLe(1, L, CARRY);
    MulLe(CARRY, CARRY * L, B);
  }

  lemma CarryLostEdges(A: nat, B: nat, half: nat, lo: nat, hi: nat)
    requires B > 0 && lo == (2 * HIDDEN - 1) * half && hi == 2 * HIDDEN * half
    ensures CarryLost(A * 1, 2 * half * B) == CarryLost(A / B * 1, 2 * half)
  {
    FloorOrder(A, B, lo, 1);
    FloorOrder(A, B, hi, 1);
    MulAssoc(2 * HIDDEN - 1, half, B, half * B);
    MulAssoc(2 * HIDDEN, half, B, half * B);
    MulAssoc(2, half, B, half * B);
  }

  // ---------- the quotient of two finite floats ----------

  predicate Divisible(a: uint32, b: uint32) {
    IsFinite(a) && IsFinite(b) && !IsZero(a) && !IsZero(b)
  }

  lemma Significands(a: uint32, b: uint32)
    requires Divisible(a, b)
    ensures Significand(a) > 0 && Significand(b) > 0
  {
    ClassesByFields(a);
    ClassesByFields(b);
  }

  function Numerator(a: uint32): (A: nat)
    requires Significand(a) > 0
    ensures A >= TOP
  {
    LeftJustified(Significand(a))
  }

  function Divisor(b: uint32): (B: nat)
    requires Significand(b) > 0
    ensures 0 < B < 2 * HIDDEN && B % 2 == 1
  {
    OddPart(Significand(b))
  }

  function QuotientExponent(a: uint32, b: uint32): int
    requires Significand(a) > 0 && Significand(b) > 0
  {
    EffExponent(a) - EffExponent(b) + 153 - (LeftShifts(Significand(a)) + Twos(Significand(b)))
  }

  /** The division left a remainder, and the truncated quotient lies on a midpoint above an even float. */
  predicate QuotientLosesSticky(a: uint32, b: uint32)
    requires Divisible(a, b)
  {
    Significands(a, b);
    StickyLost(Numerator(a), Divisor(b), QuotientExponent(a, b))
  }

  /** The exact quotient is below 2^-126 by at most half the spacing of the subnormals. */
  predicate QuotientLosesCarry(a: uint32, b: uint32)
    requires Divisible(a, b)
  {
    CarryLost(Mag(a) * Pow2(149), Mag(b))
  }

  predicate DivDeviates(a: uint32, b: uint32) {
    UnknownNaNOperand(a, b) || (Divisible(a, b) && (QuotientLosesCarry(a, b) || QuotientLosesSticky(a, b)))
  }

  /** The pattern that the standard asks for. */
  function ExactQuotient(a: uint32, b: uint32): (n: nat)
    requires Divisible(a, b)
    ensures n <= INF
  {
    RoundNE(Mag(a) * Pow2(149), Mag(b))
  }

  /** The pattern that the routine computes. */
  function ComputedQuotient(a: uint32, b: uint32): (n: nat)
    requires Significand(a) > 0 && Significand(b) > 0
    ensures n <= INF
  {
    Normalized(QuotientExponent(a, b), Numerator(a) / Divisor(b))
  }

  lemma PairBalance(k: nat, x: nat, u: nat, E: int, M: nat)
    requires k + E == x + u + 4 && M == Pow2(k)
    ensures M * Lift(E) == Pow2(x) * Pow2(u) * Den(E)
  {
    hide Pow2;
    if E >= 4 {
      Pow2Sum(k, E - 4);
      MulEq(M, Pow2(k), Pow2(E - 4));
      Pow2Sum(x, u);
      assert k + (E - 4) == x + u;
    } else {
      Pow2Sum3(x, u, 4 - E);
      assert k == x + u + (4 - E);
    }
  }

  lemma SameFactors(sa: nat, p: nat, L: nat, B: nat, q: nat, y: nat, x: nat, u: nat, D: nat, M: nat)
    requires M == p * q * y && M * L == x * u * D
    ensures sa * p * L * (B * q * y) == sa * x * u * (D * B)
  {
    assert sa * p * L * (B * q * y) == sa * B * (p * q * y * L);
    assert sa * x * u * (D * B) == sa * B * (x * u * D);
    MulEq(M, p * q * y, L);
  }

  /** The quotient of the integers at its exponent is the exact quotient. */
  lemma QuotientValue(a: uint32, b: uint32)
    requires Divisible(a, b) && Significand(a) > 0 && Significand(b) > 0
    ensures var A, B, E := Numerator(a), Divisor(b), QuotientExponent(a, b);
      A * Lift(E) * Mag(b) == Mag(a) * Pow2(149) * (Den(E) * B)
    ensures Mag(b) > 0
  {
    hide Mag, EffExponent, Significand, Lift, Den, Pow2, LeftJustified, OddPart, LeftShifts, Twos;
    var sa, sb, E := Significand(a), Significand(b), QuotientExponent(a, b);
    MagOfFields(a);
    MagOfFields(b);
    LeftJustifiedIs(sa);
    OddPartIs(sb);
    var p, q, y := LeftShifts(sa), Twos(sb), EffExponent(b) - 1;
    Pow2Sum3(p, q, y);
    PairBalance(p + q + y, EffExponent(a) - 1, 149, E, Pow2(p + q + y));
    SameFactors(sa, Pow2(p), Lift(E), OddPart(sb), Pow2(q), Pow2(y),
                Pow2(EffExponent(a) - 1), Pow2(149), Den(E), Pow2(p + q + y));
    MulLe(1, Pow2(EffExponent(b) - 1), sb);
  }

  lemma QuotientIsLarge(A: nat, B: nat)
    requires A >= TOP && 0 < B < 2 * HIDDEN
    ensures A / B >= CARRY
  {
    DivMod(A, B);
    if A / B < CARRY {
      MulLe(A / B, CARRY, B);
    }
  }

  /** The result against the standard's, for any two finite operands but zeros. */
  lemma FiniteQuotient(a: uint32, b: uint32)
    requires Divisible(a, b) && Significand(a) > 0 && Significand(b) > 0
    ensures ComputedQuotient(a, b) == ExactQuotient(a, b)
       <==> !QuotientLosesCarry(a, b) && !QuotientLosesSticky(a, b)
  {
    hide Mag, Significand, EffExponent, Lift, Den, Normalized, CarryLost, RoundNE, QuotientExponent, Numerator,
         Divisor;
    var A, B, E := Numerator(a), Divisor(b), QuotientExponent(a, b);
    QuotientIsLarge(A, B);
    QuotientValue(a, b);
    SameValueSameResult(A * Lift(E), Den(E) * B, Mag(a) * Pow2(149), Mag(b));
    FloorNormalized(A, B, E);
  }

  lemma FloorNormalized(A: nat, B: nat, E: int)
    requires B > 0 && A / B >= CARRY
    ensures Normalized(E, A / B) == RoundNE(A * Lift(E), Den(E) * B)
       <==> !CarryLost(A * Lift(E), Den(E) * B) && !StickyLost(A, B, E)
  {
    var F := A / B;
    assert Num(F, E) == F * Lift(E);
    hide Num, Lift, Den;
    FloorLosesCarry(A, B, E);
    if CarryLost(A * Lift(E), Den(E) * B) {
      CarryLostRounds(A * Lift(E), Den(E) * B);
    } else if E + Shifts(F, E) <= 254 {
      FloorRoundsInRange(A, B, E);
    } else {
      FloorRoundsToInfinity(A, B, E);
    }
  }

  // ---------- the routine ----------

  lemma DivTableEntries(a: uint32, b: uint32)
    requires forall k | 0 <= k < |CORNER_DIV| :: !(CORNER_DIV[k].a == a && CORNER_DIV[k].b == b)
    ensures a == P_ZERO_F || a == N_ZERO_F ==> b != P_ZERO_F && b != N_ZERO_F
    ensures a == P_INF_F || a == N_INF_F ==> b != P_ZERO_F && b != N_ZERO_F && b != P_INF_F && b != N_INF_F
  {
    var t := CORNER_DIV;
    assert t[0] == t[0] && t[1] == t[1] && t[2] == t[2] && t[3] == t[3] && t[4] == t[4] && t[5] == t[5];
    assert t[6] == t[6] && t[7] == t[7] && t[8] == t[8] && t[9] == t[9] && t[10] == t[10] && t[11] == t[11];
  }

  /** Lines 462 to 467: shift the dividend left until bit 63 is set. */
  method JustifyLeft(sig0: nat) returns (sig_a: uint64, shift: nat)
    requires 0 < sig0 < 2 * HIDDEN
    ensures sig_a == LeftJustified(sig0) && shift == LeftShifts(sig0) < 64
  {
    sig_a, shift := sig0, 0;
    while sig_a / TOP == 0
      invariant Pow2(shift) <= sig_a < 2 * TOP
      invariant LeftJustified(sig_a) == LeftJustified(sig0) && shift + LeftShifts(sig_a) == LeftShifts(sig0)
      decreases TOP - sig_a
    {
      sig_a := sig_a * 2;
      shift := shift + 1;
    }
    if shift >= 64 {
      Pow2Mono(64, shift);
      Pow2At64();
    }
  }

  /** Lines 468 to 472: shift the divisor right until it is odd. */
  method StripTwos(sig0: nat) returns (sig_b: nat, shift: nat)
    requires 0 < sig0
    ensures sig_b == OddPart(sig0) && shift == Twos(sig0) <= sig0
  {
    sig_b, shift := sig0, 0;
    while sig_b % 2 == 0
      invariant 0 < sig_b && sig_b + shift <= sig0
      invariant OddPart(sig_b) == OddPart(sig0) && shift + Twos(sig_b) == Twos(sig0)
      decreases sig_b
    {
      sig_b := sig_b / 2;
      shift := shift + 1;
    }
  }

  /** Lines 453 to 481, for operands that are neither zero nor infinite. */
  method DivNumbers(b: uint32, a: uint32) returns (r: uint32)
    requires Significand(a) > 0 && Significand(b) > 0
    ensures r == WithSign(XorSign(a, b), ComputedQuotient(a, b))
  {
    hide Normalized, LeftJustified, LeftShifts, OddPart, Twos, Exponent, Fraction, XorSign, WithSign;
    hide Normalizable, Shl, Wrapped;
    var sig_a: nat := Fraction(a);
    if Exponent(a) != 0 {
      sig_a := sig_a + 0x80_0000;
    }
    var sig_b: nat := Fraction(b);
    if Exponent(b) != 0 {
      sig_b := sig_b + 0x80_0000;
    }
    var shift, twos: nat;
    sig_a, shift := JustifyLeft(sig_a);
    sig_b, twos := StripTwos(sig_b);
    shift := shift + twos;
    var sig_res := DivideSignificands(sig_a, sig_b);
    var exp_a: int, exp_b: int := Exponent(a), Exponent(b);
    if exp_a == 0 {
      exp_a := exp_a + 1;
    }
    if exp_b == 0 {
      exp_b := exp_b + 1;
    }
    var exp_res: int32 := exp_a - exp_b + 127 - (shift - 23 - 3);
    BelowInfinity(exp_res, sig_res);
    r := InternalNormalize(XorSign(a, b), exp_res, sig_res);
  }

  /** Line 474. */
  method DivideSignificands(sig_a: uint64, sig_b: nat) returns (sig_res: uint64)
    requires sig_a >= TOP && 0 < sig_b < 2 * HIDDEN
    ensures CARRY <= sig_res == sig_a / sig_b
  {
    QuotientIsLarge(sig_a, sig_b);
    DivMod(sig_a, sig_b);
    MulLe(1, sig_b, sig_a / sig_b);
    sig_res := sig_a / sig_b;
  }

  lemma DivTableConforms(i: nat)
    requires i < |CORNER_DIV|
    ensures var t := CORNER_DIV[i]; DivConforms(t.a, t.b, t.res) && !DivDeviates(t.a, t.b) && !Divisible(t.a, t.b)
  {
    hide RoundedQuotient, IsFinite, Exponent;
    ClassesByConstants(CORNER_DIV[i].a);
    ClassesByConstants(CORNER_DIV[i].b);
  }

  lemma DivTableBits(i: nat)
    requires i < |CORNER_DIV|
    ensures var t := CORNER_DIV[i]; SpecialQuotient(t.a, t.b, t.res)
  {
  }

  /** The early returns and the others, in bits. */
  lemma QuotientBits(a: uint32, b: uint32, r: uint32)
    requires !(Zero(a) && Zero(b)) && !(Infinite(a) && (Infinite(b) || Zero(b)))
    requires
      || ((Quiet(a) || Quiet(b)) && r == QuietOf(a, b))
      || (!Quiet(a) && !Quiet(b) && (Infinite(a) || Zero(b)) && r == WithSign(XorSign(a, b), INF))
      || (!Quiet(a) && !Quiet(b) && !Infinite(a) && !Zero(b) && (Zero(a) || Infinite(b)) &&
          r == WithSign(XorSign(a, b), 0))
      || (!Quiet(a) && !Quiet(b) && !Zero(a) && !Zero(b) && !Infinite(a) && !Infinite(b) &&
          exists n: nat | n <= INF :: r == WithSign(XorSign(a, b), n))
    ensures SpecialQuotient(a, b, r)
  {
    BitSigns(a, b);
    BitClasses(a);
    BitClasses(b);
    hide Quiet, Infinite, Zero, NotANumber, XorSign, OppositeSigns;
  }

  /** The result for operands of which one is an infinity, a zero or a known NaN. */
  predicate SpecialResult(a: uint32, b: uint32, r: uint32) {
    if KnownNaN(a) || KnownNaN(b) then IsNaN(r)
    else if IsInf(a) then !IsInf(b) && r == WithSign(XorSign(a, b), INF)
    else if IsZero(b) then !IsZero(a) && r == WithSign(XorSign(a, b), INF)
    else if IsZero(a) || IsInf(b) then r == WithSign(XorSign(a, b), 0)
    else false
  }

  lemma SpecialConforms(a: uint32, b: uint32, r: uint32)
    requires SpecialResult(a, b, r)
    ensures (DivConforms(a, b, r) <==> !DivDeviates(a, b)) && !Divisible(a, b)
  {
    ClassesByConstants(a);
    ClassesByConstants(b);
    hide RoundedQuotient, QuotientLosesCarry, QuotientLosesSticky, Sign, IsNaN, IsInf, IsZero, IsFinite, Exponent;
    hide WithSign;
    WithSignIsNumber(XorSign(a, b), 0);
    WithSignIsNumber(XorSign(a, b), INF);
    if IsZero(a) && IsFinite(b) && !IsZero(b) {
      ZeroQuotient(a, b);
    }
  }

  /** a / b, for every pair of encodings. */
  method InternalFloatDiv(b: uint32, a: uint32) returns (r: uint32)
    ensures DivConforms(a, b, r) <==> !DivDeviates(a, b)
    ensures Divisible(a, b) && Significand(a) > 0 && Significand(b) > 0 ==>
      r == WithSign(XorSign(a, b), ComputedQuotient(a, b))
    ensures SpecialQuotient(a, b, r)
  {
    hide SpecialResult, DivConforms, DivDeviates, ComputedQuotient, Sign, Exponent, Fraction, IsFinite, Significand;
    var i := FindCorner(CORNER_DIV, a, b);
    if i < |CORNER_DIV| {
      DivTableConforms(i);
      DivTableBits(i);
      return CORNER_DIV[i].res;
    }
    DivTableEntries(a, b);
    BitClasses(a);
    BitClasses(b);
    hide Quiet, Infinite, Zero, NotANumber, SpecialQuotient;
    if a == P_NAN_F || a == N_NAN_F || b == P_NAN_F || b == N_NAN_F {
      r := if a == P_NAN_F || b == P_NAN_F then P_NAN_F else N_NAN_F;
      SpecialBranch(a, b, r);
      QuotientBits(a, b, r);
      return;
    }
    if a == P_INF_F || a == N_INF_F {
      r := if XorSign(a, b) == 1 then N_INF_F else P_INF_F;
      SpecialBranch(a, b, r);
      QuotientBits(a, b, r);
      return;
    }
    if b == P_ZERO_F || b == N_ZERO_F {
      r := if XorSign(a, b) == 1 then N_INF_F else P_INF_F;
      SpecialBranch(a, b, r);
      QuotientBits(a, b, r);
      return;
    }
    if a == P_ZERO_F || a == N_ZERO_F {
      r := WithSign(XorSign(a, b), Pattern(a));
      SpecialBranch(a, b, r);
      QuotientBits(a, b, r);
      return;
    }
    if b == P_INF_F || b == N_INF_F {
      r := if XorSign(a, b) == 1 then N_ZERO_F else P_ZERO_F;
      SpecialBranch(a, b, r);
      QuotientBits(a, b, r);
      return;
    }
    ClassesByConstants(a);
    ClassesByConstants(b);
    SignificandOfNumber(a);
    SignificandOfNumber(b);
    r := DivNumbers(b, a);
    NumbersConform(a, b);
    QuotientBits(a, b, r);
  }

  /** The early returns, in the constants that the source compares with. */
  lemma SpecialBranch(a: uint32, b: uint32, r: uint32)
    requires a == P_ZERO_F || a == N_ZERO_F ==> b != P_ZERO_F && b != N_ZERO_F
    requires a == P_INF_F || a == N_INF_F ==> b != P_ZERO_F && b != N_ZERO_F && b != P_INF_F && b != N_INF_F
    requires KnownNaN(a) || KnownNaN(b) || a == P_INF_F || a == N_INF_F || b == P_INF_F || b == N_INF_F
        || a == P_ZERO_F || a == N_ZERO_F || b == P_ZERO_F || b == N_ZERO_F
    requires KnownNaN(a) || KnownNaN(b) ==> KnownNaN(r)
    requires var infinite := a == P_INF_F || a == N_INF_F || b == P_ZERO_F || b == N_ZERO_F;
      !KnownNaN(a) && !KnownNaN(b) ==> r == WithSign(XorSign(a, b), if infinite then INF else 0)
    ensures (DivConforms(a, b, r) <==> !DivDeviates(a, b)) && !Divisible(a, b)
  {
    hide IsNaN, IsInf, IsZero, IsFinite, Exponent, Sign, DivConforms, DivDeviates;
    ClassesByConstants(a);
    ClassesByConstants(b);
    ClassesByConstants(r);
    SpecialConforms(a, b, r);
  }

  /** Operands that take no early return: two finite nonzero ones, or a NaN that no comparison knows. */
  lemma NumbersConform(a: uint32, b: uint32)
    requires !IsZero(a) && !IsZero(b) && !IsInf(a) && !IsInf(b) && !KnownNaN(a) && !KnownNaN(b)
    requires Significand(a) > 0 && Significand(b) > 0
    ensures var r := WithSign(XorSign(a, b), ComputedQuotient(a, b)); DivConforms(a, b, r) <==> !DivDeviates(a, b)
  {
    ClassesByConstants(a);
    ClassesByConstants(b);
    hide ComputedQuotient, RoundedQuotient, QuotientLosesCarry, QuotientLosesSticky, Significand, WithSign;
    hide IsNaN, IsInf, IsZero, IsFinite, Sign, Exponent;
    WithSignIsNumber(XorSign(a, b), ComputedQuotient(a, b));
    if IsFinite(a) && IsFinite(b) {
      ComputedConforms(a, b);
    }
  }

  lemma ZeroQuotient(a: uint32, b: uint32)
    requires IsZero(a) && IsFinite(b) && !IsZero(b)
    ensures RoundedQuotient(a, b) == WithSign(XorSign(a, b), 0)
  {
    assert Mag(a) * Pow2(149) == 0;
    GridMono(0, Pattern(b), 1);
    RoundExact(0);
    RoundSame(0, Mag(b), 0, 1);
  }

  lemma ComputedConforms(a: uint32, b: uint32)
    requires Divisible(a, b) && Significand(a) > 0 && Significand(b) > 0
    ensures WithSign(XorSign(a, b), ComputedQuotient(a, b)) == RoundedQuotient(a, b)
       <==> !QuotientLosesCarry(a, b) && !QuotientLosesSticky(a, b)
  {
    hide ComputedQuotient, QuotientLosesCarry, QuotientLosesSticky, RoundNE, Mag, Pow2;
    FiniteQuotient(a, b);
  }

  lemma SignificandOfNumber(v: uint32)
    ensures !IsZero(v) ==> Significand(v) > 0
  {
    ClassesByFields(v);
  }
}
