/** `internal_float_add` and `internal_float_sub`. */
module FpuAdd {
  import opened Powers
  import opened Binary32
  import opened Rounding
  import opened Ieee754
  import opened FpuNormalize

  const CORNER_ADD := [
    Rule(P_ZERO_F, P_ZERO_F, P_ZERO_F),
    Rule(N_ZERO_F, P_ZERO_F, P_ZERO_F),
    Rule(P_ZERO_F, N_ZERO_F, P_ZERO_F),
    Rule(N_ZERO_F, N_ZERO_F, N_ZERO_F),
    Rule(P_INF_F, N_INF_F, N_NAN_F),
    Rule(N_INF_F, P_INF_F, N_NAN_F),
    Rule(P_INF_F, P_NAN_F, P_NAN_F),
    Rule(P_INF_F, N_NAN_F, N_NAN_F),
    Rule(N_INF_F, P_NAN_F, P_NAN_F),
    Rule(N_INF_F, N_NAN_F, N_NAN_F),
    Rule(N_NAN_F, P_NAN_F, P_NAN_F)
  ]

  const CORNER_SUB := [
    Rule(P_ZERO_F, P_ZERO_F, P_ZERO_F),
    Rule(N_ZERO_F, P_ZERO_F, N_ZERO_F),
    Rule(P_ZERO_F, N_ZERO_F, P_ZERO_F),
    Rule(N_ZERO_F, N_ZERO_F, P_ZERO_F),
    Rule(P_NAN_F, P_NAN_F, P_NAN_F),
    Rule(N_NAN_F, P_NAN_F, P_NAN_F),
    Rule(P_NAN_F, N_NAN_F, P_NAN_F),
    Rule(N_NAN_F, N_NAN_F, N_NAN_F)
  ]

  function Signed(sign: bit, x: int): int {
    if sign == 1 then -x else x
  }

  // ---------- aligning the smaller operand ----------

  /** Three extra bits hold any shift by up to three places. */
  lemma ShortShiftIsExact(x: nat, t: nat)
    requires t <= 3
    ensures Jam(8 * x, t) * Pow2(t) == 8 * x
  {
    assert Jam(8 * x, 0) == 8 * x;
    if t >= 1 { assert Jam(8 * x, 1) == 4 * x; }
    if t >= 2 { assert Jam(8 * x, 2) == 2 * x; }
    if t >= 3 { assert Jam(8 * x, 3) == x && Pow2(3) == 8; }
  }

  /** Lines 214 to 263: the sum with the smaller operand shifted right under the larger one. */
  function AlignedSum(fa: uint32, fb: uint32): int
    requires EffExponent(fa) <= EffExponent(fb)
  {
    var t := EffExponent(fb) - EffExponent(fa);
    Signed(Sign(fa), Jam(8 * Significand(fa), t)) + Signed(Sign(fb), 8 * Significand(fb))
  }

  /** `S` at weight `V` is `T8`, or has lost bits and is odd. */
  predicate Brackets(S: int, T8: int, V: nat) {
    T8 == S * V || (S % 2 == 1 && (S - 1) * V < T8 < (S + 1) * V)
  }

  lemma BracketOperand(sa: nat, t: nat, P: nat, V: nat)
    requires V == Pow2(t) * P && P > 0
    ensures Brackets(Jam(8 * sa, t), 8 * sa * P, V)
    ensures t <= 3 ==> 8 * sa * P == Jam(8 * sa, t) * V
  {
    var j := Jam(8 * sa, t);
    if t <= 3 {
      ShortShiftIsExact(sa, t);
      MulAssoc(j, Pow2(t), P, V);
    } else if j % 2 == 0 {
      JamScaled(8 * sa, t, P, j);
    } else {
      JamScaled(8 * sa, t, P, j - 1);
      JamScaled(8 * sa, t, P, j + 1);
    }
  }

  lemma SignedProduct(sign: bit, x: int, V: nat)
    ensures Signed(sign, x * V) == Signed(sign, x) * V
  {
    MulAdd(0, x, V);
  }

  lemma SignedBracket(sign: bit, j: nat, x8: int, V: nat)
    requires Brackets(j, x8, V)
    ensures Brackets(Signed(sign, j), Signed(sign, x8), V)
    ensures x8 == j * V ==> Signed(sign, x8) == Signed(sign, j) * V
  {
    SignedProduct(sign, j, V);
    SignedProduct(1, j - 1, V);
    SignedProduct(1, j + 1, V);
  }

  lemma BracketShifted(u: int, p: int, v: int, V: nat)
    requires Brackets(u, p, V) && v % 2 == 0
    ensures Brackets(u + v, p + v * V, V)
  {
    MulAdd(u, v, V);
    MulAdd(u - 1, v, V);
    MulAdd(u + 1, v, V);
  }

  lemma BracketSum(j: nat, b: nat, x8: int, y8: int, sx: bit, sy: bit, V: nat)
    requires Brackets(j, x8, V) && b % 2 == 0 && y8 == b * V
    ensures var S, T8 := Signed(sx, j) + Signed(sy, b), Signed(sx, x8) + Signed(sy, y8);
      Brackets(S, T8, V) && (x8 == j * V ==> T8 == S * V)
  {
    var u, v := Signed(sx, j), Signed(sy, b);
    assert v % 2 == 0;
    hide Brackets, Signed;
    SignedBracket(sx, j, x8, V);
    SignedProduct(sy, b, V);
    BracketShifted(u, Signed(sx, x8), v, V);
    MulAdd(u, v, V);
  }

  /** Eight times the exact sum is bracketed by the aligned sum. */
  lemma AlignedSumBrackets(fa: uint32, fb: uint32)
    requires IsFinite(fa) && IsFinite(fb) && EffExponent(fa) <= EffExponent(fb)
    ensures var T, S, V := Value(fa) + Value(fb), AlignedSum(fa, fb), Pow2(EffExponent(fb) - 1);
      && Brackets(S, 8 * T, V)
      && (EffExponent(fb) - EffExponent(fa) <= 3 ==> 8 * T == S * V)
  {
    hide Value, EffExponent, Significand, Jam, Pow2, Brackets, IsFinite;
    var ea, eb, sa, sb := EffExponent(fa), EffExponent(fb), Significand(fa), Significand(fb);
    var t, V, P := eb - ea, Pow2(eb - 1), Pow2(ea - 1);
    assert V == Pow2(t) * P by {
      Pow2Sum(t, ea - 1);
      assert t + (ea - 1) == eb - 1;
    }
    BracketOperand(sa, t, P, V);
    BracketSum(Jam(8 * sa, t), 8 * sb, 8 * sa * P, 8 * sb * V, Sign(fa), Sign(fb), V);
    EightTimes(fa);
    EightTimes(fb);
    assert 8 * (Value(fa) + Value(fb)) == Signed(Sign(fa), 8 * sa * P) + Signed(Sign(fb), 8 * sb * V);
  }

  lemma EightTimes(f: uint32)
    requires IsFinite(f)
    ensures 8 * Value(f) == Signed(Sign(f), 8 * Significand(f) * Pow2(EffExponent(f) - 1))
  {
    MagOfFields(f);
    MulAssoc(8, Significand(f), Pow2(EffExponent(f) - 1), Mag(f));
  }

  // ---------- an exact aligned sum ----------

  lemma ExactAlignedSum(s: nat, E: nat, T: nat)
    requires E >= 1 && 8 * T == s * Pow2(E - 1)
    ensures RoundNE(Num(s, E), Den(E)) == RoundNE(T, 1)
    ensures !CarryLost(Num(s, E), Den(E))
  {
    UnitAt(E, 0);
    ExactRatio(s, Pow2(E - 1), Den(E), Lift(E), T);
    RoundSame(Num(s, E), Den(E), T, 1);
    WholeUnits(T, Den(E));
  }

  lemma ExactRatio(s: nat, P: nat, D: nat, L: nat, T: nat)
    requires 8 * T == s * P && P * D == 8 * L
    ensures s * L == T * D
  {
    MulEq(8 * T, s * P, D);
    MulAssoc(8, T, D, T * D);
    MulAssoc(s, P, D, 8 * L);
    MulAssoc(s, 8, L, 8 * L);
    MulAssoc(8, s, L, s * L);
  }

  lemma WholeUnits(T: nat, D: nat)
    requires D > 0
    ensures !CarryLost(T * D, D)
  {
    ScaleOrder(2 * T, 2 * HIDDEN, D);
    ScaleOrder(2 * T, 2 * HIDDEN - 1, D);
    MulAssoc(2, T, D, T * D);
  }

  // ---------- an aligned sum that has lost bits ----------

  /** From exponent field j+1 on, floats are multiples of 2^j. */
  lemma {:induction false} GridMultiple(n: nat, j: nat) returns (c: nat)
    requires (j + 1) * HIDDEN <= n <= INF
    ensures Grid(n, 1) == c * Pow2(j)
  {
    if j == 0 {
      c := Grid(n, 1);
    } else {
      c := GridMultiple(n - HIDDEN, j - 1);
      assert c * Pow2(j) == 2 * (c * Pow2(j - 1));
    }
  }

  /** With 26 bits or more in the aligned sum, no midpoint separates it from the exact sum. */
  lemma StickyDecides(s: nat, E: nat, T: nat, k: nat)
    requires 5 <= E <= 254 && s % 2 == 1 && s > 4 * HIDDEN && k < INF
    requires (s - 1) * Pow2(E - 4) < T < (s + 1) * Pow2(E - 4)
    ensures RoundsDown(s * Pow2(E - 4), 1, k) == RoundsDown(T, 1, k)
  {
    var U, n0 := Pow2(E - 4), (E - 1) * HIDDEN;
    assert Pow2(E - 2) == 4 * U;
    if k < n0 {
      GridAt(E - 1, HIDDEN, 1);
      assert (E - 2) * HIDDEN + HIDDEN == n0;
      BothAbove(s, U, T, k, n0);
    } else {
      var c := GridMultiple(k, E - 2);
      var d := GridMultiple(k + 1, E - 2);
      SidesAgree(s, U, T, c + d);
      MulAdd(c, d, 4 * U);
      MulAssoc(c + d, 4, U, 4 * U);
      MulAssoc(4, c + d, U, (c + d) * U);
    }
  }

  lemma BothAbove(s: nat, U: nat, T: nat, k: nat, n0: nat)
    requires s > 4 * HIDDEN && (s - 1) * U < T && U > 0
    requires k < n0 <= INF && Grid(n0, 1) == HIDDEN * (4 * U * 1)
    ensures !RoundsDown(s * U, 1, k) && !RoundsDown(T, 1, k)
  {
    GridMono(k, n0, 1);
    GridMono(k + 1, n0, 1);
    MulLe(4 * HIDDEN, s - 1, U);
    MulAdd(s, 1, U);
  }

  lemma SidesAgree(s: nat, U: nat, T: nat, m: nat)
    requires U > 0 && s % 2 == 1 && (s - 1) * U < T < (s + 1) * U
    ensures 2 * T < 4 * (m * U) <==> 2 * (s * U) < 4 * (m * U)
    ensures 2 * T != 4 * (m * U) && 2 * (s * U) != 4 * (m * U)
  {
    MulAssoc(2, m, U, m * U);
    if s < 2 * m {
      MulLe(s + 1, 2 * m, U);
      ScaleOrder(s, 2 * m, U);
    } else {
      MulLe(2 * m, s - 1, U);
      ScaleOrder(2 * m, s, U);
    }
  }

  lemma StickyAlignedSum(s: nat, E: nat, T: nat)
    requires 5 <= E <= 254 && s % 2 == 1 && s > 4 * HIDDEN
    requires (s - 1) * Pow2(E - 4) < T < (s + 1) * Pow2(E - 4)
    ensures RoundNE(Num(s, E), Den(E)) == RoundNE(T, 1)
    ensures !CarryLost(Num(s, E), Den(E))
  {
    forall k | 0 <= k < INF
      ensures RoundsDown(s * Pow2(E - 4), 1, k) == RoundsDown(T, 1, k)
    {
      StickyDecides(s, E, T, k);
    }
    RoundAgrees(s * Pow2(E - 4), 1, T, 1, 0);
    MulLe(4 * HIDDEN, s, Pow2(E - 4));
    MulLe(1, Pow2(E - 4), 4 * HIDDEN);
  }

  // ---------- the aligned sum rounds like the exact sum ----------

  lemma {:induction false} JamShrinks(x: nat, t: nat)
    requires t >= 4 && x <= 16 * HIDDEN
    ensures Jam(x, t) <= HIDDEN
  {
    JamOrder(x, t, HIDDEN);
    Pow2Mono(4, t);
    assert Pow2(4) == 16;
    MulLe(16, Pow2(t), HIDDEN);
  }

  lemma AlignedSumRounds(fa: uint32, fb: uint32)
    requires IsFinite(fa) && IsFinite(fb) && EffExponent(fa) <= EffExponent(fb)
    ensures var T, S, E := Value(fa) + Value(fb), AlignedSum(fa, fb), EffExponent(fb);
      && (T < 0 <==> S < 0)
      && RoundNE(Num(Abs(S), E), Den(E)) == RoundNE(Abs(T), 1)
      && !CarryLost(Num(Abs(S), E), Den(E))
  {
    hide Value, AlignedSum, EffExponent;
    var T, S, E := Value(fa) + Value(fb), AlignedSum(fa, fb), EffExponent(fb);
    AlignedSumBrackets(fa, fb);
    if 8 * T == S * Pow2(E - 1) {
      AbsRatio(S, T, Pow2(E - 1));
      ExactAlignedSum(Abs(S), E, Abs(T));
    } else {
      AlignedSumIsLarge(fa, fb);
      LargeSumRounds(S, E, T);
    }
  }

  lemma LargeSumRounds(S: int, E: nat, T: int)
    requires 5 <= E <= 254 && S % 2 == 1 && Abs(S) > 4 * HIDDEN
    requires (S - 1) * Pow2(E - 1) < 8 * T < (S + 1) * Pow2(E - 1)
    ensures T < 0 <==> S < 0
    ensures RoundNE(Num(Abs(S), E), Den(E)) == RoundNE(Abs(T), 1)
    ensures !CarryLost(Num(Abs(S), E), Den(E))
  {
    assert Pow2(E - 1) == 8 * Pow2(E - 4) by {
      assert Pow2(E - 2) == 2 * Pow2(E - 3);
    }
    ScaleBrackets(S, T, Pow2(E - 4));
    StickyAlignedSum(Abs(S), E, Abs(T));
  }

  lemma AbsRatio(S: int, T: int, V: nat)
    requires V > 0 && 8 * T == S * V
    ensures 8 * Abs(T) == Abs(S) * V && (T < 0 <==> S < 0)
  {
    ScaleOrder(S, 0, V);
    ScaleOrder(0, S, V);
    MulAdd(0, S, V);
  }

  lemma AlignedSumIsLarge(fa: uint32, fb: uint32)
    requires IsFinite(fa) && IsFinite(fb) && EffExponent(fb) - EffExponent(fa) >= 4
    ensures Abs(AlignedSum(fa, fb)) > 4 * HIDDEN && EffExponent(fb) <= 254
  {
    JamShrinks(8 * Significand(fa), EffExponent(fb) - EffExponent(fa));
  }

  lemma ScaleBrackets(S: int, T: int, U: nat)
    requires U > 0 && (S - 1) * (8 * U) < 8 * T < (S + 1) * (8 * U) && S != 0
    ensures T < 0 <==> S < 0
    ensures (Abs(S) - 1) * U < Abs(T) < (Abs(S) + 1) * U
  {
    assert (S - 1) * (8 * U) == 8 * ((S - 1) * U) && (S + 1) * (8 * U) == 8 * ((S + 1) * U);
    if S > 0 {
      MulLe(0, S - 1, U);
    } else {
      MulLe(S + 1, 0, U);
      assert (-S - 1) * U == -((S + 1) * U) && (-S + 1) * U == -((S - 1) * U);
    }
  }

  // ---------- the routines ----------

  /** The product with -1 in 32 bits. */
  function Neg32(x: uint32): uint32 {
    if x == 0 then 0 else 0x1_0000_0000 - x
  }

  function Add32(x: uint32, y: uint32): uint32 {
    (x + y) % 0x1_0000_0000
  }

  /** Lines 241 to 251: shift the smaller significand right, keeping a sticky bit. */
  method ShiftSignificand(sig0: uint32, shift0: nat) returns (sig_a: uint32)
    ensures sig_a == Jam(sig0, shift0) <= sig0
  {
    sig_a := sig0;
    var shift, sticky: bit := shift0, 0;
    while shift > 0
      invariant 0 <= shift <= shift0
      invariant sig_a == Jam(sig0, shift0 - shift) <= sig0
      invariant sticky == 1 ==> sig_a % 2 == 1
    {
      sticky := if sticky == 1 || sig_a % 2 == 1 then 1 else 0;
      sig_a := sig_a / 2;
      sig_a := OrBit(sig_a, sticky);
      shift := shift - 1;
    }
  }

  /** A signed number in two's complement. */
  function Complement(sign: bit, x: uint32): uint32 {
    if sign == 1 then Neg32(x) else x
  }

  lemma ComplementSum(sign_a: bit, x: uint32, sign_b: bit, y: uint32)
    requires x <= CARRY && y <= CARRY
    ensures var S := Signed(sign_a, x) + Signed(sign_b, y);
      Add32(Complement(sign_a, x), Complement(sign_b, y)) == if S < 0 then S + 0x1_0000_0000 else S
  {
    var S, W := Signed(sign_a, x) + Signed(sign_b, y), 0x1_0000_0000;
    var u, v := Complement(sign_a, x), Complement(sign_b, y);
    var q := (u + v - if S < 0 then S + W else S) / W;
    DivUnique(u + v, W, q, if S < 0 then S + W else S);
  }

  /** Lines 253 to 273: add in two's complement, then split off the sign again. */
  method AddSigned(sign_a: bit, sig_a0: uint32, sign_b: bit, sig_b0: uint32) returns (sign: bit, sig_res: uint32)
    requires sig_a0 <= CARRY && sig_b0 <= CARRY
    ensures var S := Signed(sign_a, sig_a0) + Signed(sign_b, sig_b0);
      sig_res == Abs(S) && sign == SignOf(S)
  {
    hide Add32;
    ComplementSum(sign_a, sig_a0, sign_b, sig_b0);
    var sig_a, sig_b := sig_a0, sig_b0;
    if sign_a == 1 {
      sig_a := Neg32(sig_a);
    }
    if sign_b == 1 {
      sig_b := Neg32(sig_b);
    }
    sig_res := Add32(sig_a, sig_b);
    if sig_res / SIGN_BIT == 1 {
      sign := 1;
      sig_res := Neg32(sig_res);
    } else {
      sign := 0;
    }
  }

  /** Lines 220 to 251: the significands with three extra bits, the first one shifted under the second. */
  method Align(fa: uint32, fb: uint32) returns (sig_a: uint32, sig_b: uint32)
    requires Exponent(fa) <= Exponent(fb)
    ensures EffExponent(fa) <= EffExponent(fb) && sig_a <= CARRY && sig_b <= CARRY
    ensures Signed(Sign(fa), sig_a) + Signed(Sign(fb), sig_b) == AlignedSum(fa, fb)
  {
    sig_a := Fraction(fa);
    if Exponent(fa) != 0 {
      sig_a := sig_a + 0x80_0000;
    }
    sig_b := Fraction(fb);
    if Exponent(fb) != 0 {
      sig_b := sig_b + 0x80_0000;
    }
    var shift := (if Exponent(fb) == 0 then Exponent(fb) + 1 else Exponent(fb))
               - (if Exponent(fa) == 0 then Exponent(fa) + 1 else Exponent(fa));
    sig_a := sig_a * 8;
    sig_b := sig_b * 8;
    sig_a := ShiftSignificand(sig_a, shift);
  }

  /** Lines 200 to 276, for two finite operands. */
  method AddFinite(b: uint32, a: uint32) returns (r: uint32)
    requires IsFinite(a) && IsFinite(b) && !IsZero(a) && !IsZero(b)
    ensures r == RoundedSum(a, b)
  {
    hide RoundedSum, Normalized, Normalizable, AlignedSum, Exponent;
    var fa, fb := a, b;
    if Exponent(fa) > Exponent(fb) {
      fa := b;
      fb := a;
    }
    var sig_a, sig_b := Align(fa, fb);
    var sign, sig_res := AddSigned(Sign(fa), sig_a, Sign(fb), sig_b);
    var exp_res := Exponent(fb);
    r := InternalNormalize(sign, exp_res, sig_res);
    SumIsNormalized(fa, fb);
    SumCommutes(a, b);
  }

  lemma SumIsNormalized(fa: uint32, fb: uint32)
    requires IsFinite(fa) && IsFinite(fb) && !IsZero(fa) && !IsZero(fb)
    requires Exponent(fa) <= Exponent(fb)
    ensures var S, exp := AlignedSum(fa, fb), Exponent(fb);
      && Normalizable(exp, Abs(S))
      && RoundedSum(fa, fb) == WithSign(SignOf(S), Normalized(exp, Abs(S)))
  {
    AlignedSumBound(fa, fb);
    hide AlignedSum, Value, Num, Den, CarryLost;
    AlignedSumRounds(fa, fb);
    NonzeroValue(fa);
    NonzeroValue(fb);
    RoundExact(0);
  }

  lemma AlignedSumBound(fa: uint32, fb: uint32)
    requires IsFinite(fa) && IsFinite(fb) && Exponent(fa) <= Exponent(fb)
    ensures Abs(AlignedSum(fa, fb)) < 2 * CARRY
    ensures Exponent(fb) == 0 ==> Abs(AlignedSum(fa, fb)) < CARRY
    ensures EntryExponent(Exponent(fb), Abs(AlignedSum(fa, fb))) == EffExponent(fb)
    ensures Normalizable(Exponent(fb), Abs(AlignedSum(fa, fb)))
  {
    ClassesByFields(fb);
    JamOrder(8 * Significand(fa), EffExponent(fb) - EffExponent(fa), CARRY);
    MulLe(1, Pow2(EffExponent(fb) - EffExponent(fa)), CARRY);
  }

  /** A nonzero float has a nonzero value of its own sign. */
  lemma NonzeroValue(v: uint32)
    requires IsFinite(v) && !IsZero(v)
    ensures if Sign(v) == 1 then Value(v) < 0 else Value(v) > 0
  {
    GridMono(0, Pattern(v), 1);
  }

  lemma SumCommutes(a: uint32, b: uint32)
    requires IsFinite(a) && IsFinite(b)
    ensures RoundedSum(a, b) == RoundedSum(b, a)
  {
  }

  lemma AddZero(z: uint32, v: uint32)
    requires IsZero(z) && IsFinite(v) && !IsZero(v)
    ensures RoundedSum(z, v) == v && RoundedSum(v, z) == v
  {
    assert Value(z) == 0;
    NonzeroValue(v);
    RoundedValue(v);
    hide Value, RoundNE;
  }

  /** A nonzero float is the rounding of its own value. */
  lemma RoundedValue(v: uint32)
    requires IsFinite(v) && !IsZero(v)
    ensures WithSign(SignOf(Value(v)), RoundNE(Abs(Value(v)), 1)) == v
  {
    NonzeroValue(v);
    ClassesByFields(v);
    RoundExact(Pattern(v));
    hide Grid, RoundNE, Exponent, Fraction, Pattern;
  }

  /** An infinity plus a NaN other than the two the tables know. */
  predicate UnknownNaNAfterInf(a: uint32, b: uint32) {
    IsInf(a) && IsNaN(b) && b != P_NAN_F && b != N_NAN_F
  }

  lemma AddTableEntries(a: uint32, b: uint32)
    requires forall k | 0 <= k < |CORNER_ADD| :: !(CORNER_ADD[k].a == a && CORNER_ADD[k].b == b)
    ensures a == P_ZERO_F || a == N_ZERO_F ==> b != P_ZERO_F && b != N_ZERO_F
    ensures a == P_INF_F ==> b != N_INF_F && b != P_NAN_F && b != N_NAN_F
    ensures a == N_INF_F ==> b != P_INF_F && b != P_NAN_F && b != N_NAN_F
    ensures a == N_NAN_F ==> b != P_NAN_F
  {
    var t := CORNER_ADD;
    assert t[0] == t[0] && t[1] == t[1] && t[2] == t[2] && t[3] == t[3] && t[4] == t[4];
    assert t[5] == t[5] && t[6] == t[6] && t[7] == t[7] && t[8] == t[8] && t[9] == t[9] && t[10] == t[10];
  }

  lemma AddTableBits(i: nat)
    requires i < |CORNER_ADD|
    ensures var t := CORNER_ADD[i]; SpecialSum(t.a, t.b, t.res)
  {
  }

  lemma AddTableConforms(i: nat)
    requires i < |CORNER_ADD|
    ensures var t := CORNER_ADD[i]; AddConforms(t.a, t.b, t.res) && !UnknownNaNAfterInf(t.a, t.b)
  {
    hide Value, RoundedSum, IsFinite, Exponent;
    var t := CORNER_ADD[i];
    ClassesByConstants(t.a);
    ClassesByConstants(t.b);
    if i < 4 {
      ZerosSum(t.a, t.b);
    }
  }

  lemma ZerosSum(a: uint32, b: uint32)
    requires (a == P_ZERO_F || a == N_ZERO_F) && (b == P_ZERO_F || b == N_ZERO_F)
    ensures IsFinite(a) && IsFinite(b) && RoundedSum(a, b) == if a == N_ZERO_F then b else P_ZERO_F
  {
    assert Value(P_ZERO_F) == Value(N_ZERO_F) == 0;
    hide Value;
  }

  /** a + b, for every pair of encodings. */
  method InternalFloatAdd(b: uint32, a: uint32) returns (r: uint32)
    ensures AddConforms(a, b, r) <==> !UnknownNaNAfterInf(a, b)
    ensures SpecialSum(a, b, r)
  {
    var i := FindCorner(CORNER_ADD, a, b);
    if i < |CORNER_ADD| {
      AddTableConforms(i);
      AddTableBits(i);
      return CORNER_ADD[i].res;
    }
    AddTableEntries(a, b);
    BitClasses(a);
    BitClasses(b);
    hide Quiet, Infinite, Zero, NotANumber;
    ClassesByConstants(a);
    ClassesByConstants(b);
    hide RoundedSum, IsNaN, IsInf, IsZero, IsFinite, Exponent, Sign;
    if a == P_ZERO_F || a == N_ZERO_F {
      if IsFinite(b) {
        AddZero(a, b);
      }
      return b;
    }
    if b == P_ZERO_F || b == N_ZERO_F {
      if IsFinite(a) {
        AddZero(b, a);
      }
      return a;
    }
    if Exponent(a) == 0xff {
      return a;
    }
    if Exponent(b) == 0xff {
      return b;
    }
    r := AddFinite(b, a);
  }

  lemma SubTableBits(i: nat)
    requires i < |CORNER_SUB|
    ensures var t := CORNER_SUB[i]; SpecialDifference(t.a, t.b, t.res)
  {
  }

  lemma SubTableEntries(a: uint32, b: uint32)
    requires forall k | 0 <= k < |CORNER_SUB| :: !(CORNER_SUB[k].a == a && CORNER_SUB[k].b == b)
    ensures !(Zero(a) && Zero(b)) && !(Quiet(a) && Quiet(b))
  {
    var t := CORNER_SUB;
    BitClasses(a);
    BitClasses(b);
    assert t[0] == t[0] && t[1] == t[1] && t[2] == t[2] && t[3] == t[3];
    assert t[4] == t[4] && t[5] == t[5] && t[6] == t[6] && t[7] == t[7];
  }

  /** What the addition makes of the flipped operand is the difference. */
  lemma FlippedSum(a: uint32, b: uint32, r: uint32)
    requires !(Zero(a) && Zero(b)) && !Quiet(a) && !Quiet(b) && SpecialSum(a, Negate(b), r)
    ensures SpecialDifference(a, b, r)
  {
    NegateBits(b);
    hide Quiet, Infinite, Zero, NotANumber, Negate;
  }

  lemma NegateBits(b: uint32)
    ensures Negate(b) == Flipped(b) && (OppositeSigns(0, b) <==> !OppositeSigns(0, Negate(b)))
    ensures NotANumber(Negate(b)) == NotANumber(b) && Infinite(Negate(b)) == Infinite(b)
    ensures Zero(Negate(b)) == Zero(b) && Quiet(Negate(b)) == Quiet(b)
  {
  }

  /** a - b, for every pair of encodings. */
  method InternalFloatSub(b: uint32, a: uint32) returns (r: uint32)
    ensures SubConforms(a, b, r) <==> !UnknownNaNAfterInf(a, b)
    ensures SpecialDifference(a, b, r)
  {
    var i := FindCorner(CORNER_SUB, a, b);
    if i < |CORNER_SUB| {
      SubTableBits(i);
      return CORNER_SUB[i].res;
    }
    SubTableEntries(a, b);
    BitClasses(a);
    BitClasses(b);
    if a == P_NAN_F || a == N_NAN_F {
      return a;
    }
    if b == P_NAN_F || b == N_NAN_F {
      return b;
    }
    hide RoundedSum, SpecialSum, SpecialDifference;
    r := InternalFloatAdd(Negate(b), a);
    FlippedSum(a, b, r);
  }
}
