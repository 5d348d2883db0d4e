/**
 `internal_normalize`: from a significand with guard, round and sticky bits to a binary32.

 A significand `sig` at exponent `E` stands for sig * 2^(E-4) units of 2^-149, that is, for
 sig / 2^26 * 2^(E-127).  Exponent 0 is ambiguous in the source: with a significand below
 2^27 it scales like exponent 1, and with a larger one it is the exponent before 1.
*/
module FpuNormalize {
  import opened Powers
  import opened Binary32
  import opened Rounding

  const CARRY := 0x800_0000   // 2^27
  const LEADING := 0x400_0000 // 2^26, the leading bit of a normalised significand

  type uint64 = x: int | 0 <= x < 0x1_0000_0000_0000_0000
  type int32 = x: int | -0x8000_0000 <= x < 0x8000_0000

  // ---------- the value a significand stands for ----------

  function Num(sig: nat, E: int): nat {
    if E >= 4 then sig * Pow2(E - 4) else sig
  }

  function Den(E: int): (d: nat)
    ensures d > 0
  {
    if E >= 4 then 1 else Pow2(4 - E)
  }

  function EntryExponent(exp: int, sig: nat): int {
    if exp == 0 && sig < CARRY then 1 else exp
  }

  /** A value that should round up from the largest subnormal to 2^-126. */
  predicate CarryLost(X: nat, D: nat) {
    (2 * HIDDEN - 1) * D <= 2 * X < 2 * HIDDEN * D
  }

  /** Such a value belongs at 2^-126, the first normal float. */
  lemma CarryLostRounds(X: nat, D: nat)
    requires D > 0 && CarryLost(X, D)
    ensures RoundNE(X, D) == HIDDEN
  {
    RoundBetween(X, D, HIDDEN - 1);
  }

  // ---------- shifting right with a sticky bit ----------

  /** x | b for a single bit b. */
  function OrBit(x: nat, b: bit): nat {
    if x % 2 == 0 then x + b else x
  }

  function JamOnce(s: nat): nat {
    OrBit(s / 2, s % 2)
  }

  /** `s` shifted right by `t`, with every bit shifted out recorded in the last one. */
  function Jam(s: nat, t: nat): nat {
    if t == 0 then s else JamOnce(Jam(s, t - 1))
  }

  /** Jamming keeps the order against even multiples of the new unit, and equality with them. */
  lemma {:induction false} JamOrder(s: nat, t: nat, k: nat)
    requires k % 2 == 0
    ensures Jam(s, t) < k <==> s < k * Pow2(t)
    ensures Jam(s, t) == k <==> s == k * Pow2(t)
  {
    if t == 0 {
    } else {
      JamOrder(s, t - 1, 2 * k);
      assert 2 * k * Pow2(t - 1) == k * Pow2(t);
    }
  }

  // ---------- rounding off the three extra bits ----------

  function Up(sig: nat): nat {
    if sig % 8 > 4 || (sig % 8 == 4 && sig / 8 % 2 == 1) then 1 else 0
  }

  /** The pattern left after rounding `sig` at effective exponent `e`. */
  function RoundedOff(e: nat, sig: nat): nat
    requires 1 <= e
  {
    (e - 1) * HIDDEN + sig / 8 + Up(sig)
  }

  function Lift(E: int): (a: nat)
    ensures a > 0
  {
    if E >= 4 then Pow2(E - 4) else 1
  }

  lemma UnitAt(E: int, t: nat)
    requires E + t >= 1
    ensures Pow2(E + t - 1) * Den(E) == 8 * (Pow2(t) * Lift(E))
  {
    assert Pow2(3) == 8;
    if E >= 4 {
      Pow2Sum(t, E - 4);
      Pow2Sum(3, t + (E - 4));
      assert 3 + (t + (E - 4)) == E + t - 1;
    } else {
      Pow2Sum(E + t - 1, 4 - E);
      Pow2Sum(3, t);
      assert E + t - 1 + (4 - E) == 3 + t;
    }
  }

  lemma JamScaled(s0: nat, t: nat, A: nat, k: nat)
    requires k % 2 == 0 && A > 0
    ensures Jam(s0, t) < k <==> s0 * A < k * (Pow2(t) * A)
    ensures Jam(s0, t) == k <==> s0 * A == k * (Pow2(t) * A)
  {
    hide Jam, Pow2;
    JamOrder(s0, t, k);
    ScaleOrder(s0, k * Pow2(t), A);
    MulAssoc(k, Pow2(t), A, Pow2(t) * A);
  }

  lemma GridInUnits(e: nat, h: nat, D: nat, U: nat)
    requires 1 <= e && h <= 2 * HIDDEN && (e == 1 || HIDDEN <= h)
    requires (e - 1) * HIDDEN + h <= INF && Pow2(e - 1) * D == U
    ensures Grid((e - 1) * HIDDEN + h, D) == h * U
  {
    GridAt(e, h, D);
  }

  /** Where the original value lies between the two floats around the shifted significand. */
  lemma GrsOrder(s0: nat, E: int, t: nat, h: nat, n: nat)
    requires h == Jam(s0, t) / 8
    requires 1 <= E + t <= 254 && h < 2 * HIDDEN && (E + t == 1 || h >= HIDDEN)
    requires n == (E + t - 1) * HIDDEN + h
    ensures n < INF
    ensures var X, lo, hi := Num(s0, E), Grid(n, Den(E)), Grid(n + 1, Den(E));
      && lo <= X < hi
      && (Jam(s0, t) < 8 * h + 4 <==> 2 * X < lo + hi)
      && (Jam(s0, t) == 8 * h + 4 <==> 2 * X == lo + hi)
  {
    assert Num(s0, E) == s0 * Lift(E);
    hide Grid, Jam, Pow2, Lift, Num, Den;
    var A, D := Lift(E), Den(E);
    UnitAt(E, t);
    GridInUnits(E + t, h, D, 8 * (Pow2(t) * A));
    GridInUnits(E + t, h + 1, D, 8 * (Pow2(t) * A));
    JamScaled(s0, t, A, 8 * h);
    JamScaled(s0, t, A, 8 * h + 4);
    JamScaled(s0, t, A, 8 * h + 8);
    GrsThresholds(s0 * A, h, Pow2(t) * A, Grid(n, D), Grid(n + 1, D), Jam(s0, t));
  }

  lemma GrsThresholds(X: nat, h: nat, W: nat, lo: nat, hi: nat, s: nat)
    requires lo == h * (8 * W) && hi == (h + 1) * (8 * W) && h == s / 8
    requires s < 8 * h <==> X < 8 * h * W
    requires s < 8 * h + 8 <==> X < (8 * h + 8) * W
    requires s < 8 * h + 4 <==> X < (8 * h + 4) * W
    requires s == 8 * h + 4 <==> X == (8 * h + 4) * W
    ensures lo <= X < hi
    ensures s < 8 * h + 4 <==> 2 * X < lo + hi
    ensures s == 8 * h + 4 <==> 2 * X == lo + hi
  {
    assert lo == 8 * h * W && hi == (8 * h + 8) * W && lo + hi == 2 * ((8 * h + 4) * W);
  }

  /** Guard, round and sticky bits decide the rounding of the original significand. */
  lemma GrsDecides(s0: nat, E: int, t: nat)
    requires var s := Jam(s0, t);
      1 <= E + t <= 254 && s < CARRY && (E + t == 1 || s >= LEADING)
    ensures RoundNE(Num(s0, E), Den(E)) == RoundedOff(E + t, Jam(s0, t))
    ensures var s := Jam(s0, t);
      CarryLost(Num(s0, E), Den(E)) <==> E + t == 1 && s / 8 == HIDDEN - 1 && Up(s) == 1
  {
    var h := Jam(s0, t) / 8;
    GrsOrder(s0, E, t, h, (E + t - 1) * HIDDEN + h);
    GrsRounds(Num(s0, E), Den(E), E + t, Jam(s0, t), h, (E + t - 1) * HIDDEN + h);
  }

  lemma GrsRounds(X: nat, D: nat, e: nat, s: nat, h: nat, n: nat)
    requires D > 0 && 1 <= e <= 254 && h == s / 8 < 2 * HIDDEN && (e == 1 || h >= HIDDEN)
    requires n == (e - 1) * HIDDEN + h && n < INF
    requires Grid(n, D) <= X < Grid(n + 1, D)
    requires s < 8 * h + 4 <==> 2 * X < Grid(n, D) + Grid(n + 1, D)
    requires s == 8 * h + 4 <==> 2 * X == Grid(n, D) + Grid(n + 1, D)
    ensures RoundNE(X, D) == RoundedOff(e, s)
    ensures CarryLost(X, D) <==> e == 1 && h == HIDDEN - 1 && Up(s) == 1
  {
    SameParity(e, h);
    RoundBetween(X, D, n);
    UpIsNotDown(X, D, s, h, n);
    CarryLostAt(X, D, e, h);
  }

  lemma SameParity(e: nat, h: nat)
    requires e >= 1
    ensures ((e - 1) * HIDDEN + h) % 2 == h % 2
  {
    assert (e - 1) * HIDDEN + h == 2 * ((e - 1) * 0x40_0000) + h;
  }

  lemma UpIsNotDown(X: nat, D: nat, s: nat, h: nat, n: nat)
    requires n < INF && h == s / 8 && n % 2 == h % 2
    requires s < 8 * h + 4 <==> 2 * X < Grid(n, D) + Grid(n + 1, D)
    requires s == 8 * h + 4 <==> 2 * X == Grid(n, D) + Grid(n + 1, D)
    ensures Up(s) == 1 <==> !RoundsDown(X, D, n)
  {
  }

  /** The lost carry, seen from the significand. */
  lemma CarryLostAt(X: nat, D: nat, e: nat, h: nat)
    requires D > 0 && 1 <= e <= 254 && h < 2 * HIDDEN && (e == 1 || h >= HIDDEN)
    requires var n := (e - 1) * HIDDEN + h; Grid(n, D) <= X < Grid(n + 1, D)
    ensures CarryLost(X, D) <==> e == 1 && h == HIDDEN - 1 && !RoundsDown(X, D, h)
  {
    var n := (e - 1) * HIDDEN + h;
    if n >= HIDDEN {
      GridMono(HIDDEN, n, D);
    } else if n < HIDDEN - 1 {
      GridMono(n + 1, HIDDEN - 1, D);
    }
  }

  // ---------- the routine ----------

  /** All inputs but those whose value is 2^128 or more without the significand showing it. */
  predicate Normalizable(exp: int, sig: nat) {
    exp >= 255 && sig < CARRY ==> Num(sig, exp) < Grid(INF, 1)
  }

  /** Correct rounding, except that the carry out of the subnormals is dropped. */
  function Normalized(exp: int, sig: nat): (n: nat)
    ensures n <= INF
  {
    var E := EntryExponent(exp, sig);
    if CarryLost(Num(sig, E), Den(E)) then 0 else RoundNE(Num(sig, E), Den(E))
  }

  /** The routine rounds correctly exactly where no carry is lost. */
  lemma NormalizedIsRounding(exp: int, sig: nat)
    ensures var E := EntryExponent(exp, sig);
      Normalized(exp, sig) == RoundNE(Num(sig, E), Den(E)) <==> !CarryLost(Num(sig, E), Den(E))
  {
    var E := EntryExponent(exp, sig);
    if CarryLost(Num(sig, E), Den(E)) {
      CarryLostRounds(Num(sig, E), Den(E));
    }
  }

  /** What dropping the extra bits makes of the fields `exp` and `sig`. */
  function Finished(exp: nat, sig: nat): (n: nat)
    requires exp <= 254 && sig < CARRY
    ensures n <= INF
  {
    if exp == 0 && sig / 8 == HIDDEN - 1 && Up(sig) == 1 then 0
    else RoundedOff(if exp == 0 then 1 else exp, sig)
  }

  /** What becomes of a significand in place at an exponent beyond 254: the field holds the low eight bits. */
  function Wrapped(exp: nat, sig: nat): (n: nat)
    requires exp >= 255 && LEADING <= sig < CARRY
    ensures n < SIGN_BIT
  {
    if sig / 8 + Up(sig) == 2 * HIDDEN then INF else exp % 256 * HIDDEN + (sig / 8 + Up(sig) - HIDDEN)
  }

  /** Such a value must round to infinity; it does so only by a carry, or by an exponent that looks like infinity's. */
  lemma WrappedIsWrong(exp: int, sig: nat, k: nat)
    requires exp - k >= 255 && LEADING <= Shl(sig, k) < CARRY
    ensures RoundNE(Num(sig, exp), Den(exp)) == INF
    ensures var s := Shl(sig, k);
      Wrapped(exp - k, s) == INF
      <==> s / 8 + Up(s) == 2 * HIDDEN || ((exp - k) % 256 == 255 && s / 8 + Up(s) == HIDDEN)
  {
    hide RoundNE, Grid, Shl;
    ShlIsProduct(sig, k);
    LeftNormalizedTooLarge(sig, exp, k);
    RoundHuge(Num(sig, exp), Den(exp));
  }

  /** Justified at an exponent of 254 or less, a value is below 2^128. */
  lemma JustifiedIsNormalizable(exp: int, sig: nat, k: nat)
    requires k <= exp && exp - k <= 254 && Shl(sig, k) < CARRY
    ensures Normalizable(exp, sig)
  {
    hide Grid, Shl, Pow2;
    var s, E := Shl(sig, k), exp - k;
    ShlIsProduct(sig, k);
    ShiftLeftKeepsValue(sig, exp, k);
    if exp >= 255 {
      if E >= 4 {
        Pow2Mono(E - 4, 250);
        BelowTwoTo128(Num(sig, exp), s, Pow2(E - 4));
      } else {
        MulLe(1, Den(E), Num(sig, exp));
        BelowTwoTo128(s, s, 1);
        assert Num(sig, exp) <= s;
      }
    }
  }

  lemma BelowTwoTo128(X: nat, s: nat, p: nat)
    requires X == s * p && s < CARRY && p <= Pow2(250)
    ensures X < Grid(INF, 1)
  {
    hide Grid;
    GridAt(254, 2 * HIDDEN, 1);
    assert Pow2(3) == 8;
    Pow2Sum(250, 3);
    hide Pow2;
    MulLe(s, CARRY - 1, p);
    MulLe(p, Pow2(250), CARRY - 1);
  }

  /** Lines 110 to 163: drop the extra bits, rounding to nearest even, and assemble the fields. */
  method RoundOff(sign: bit, exp0: int32, sig: uint64) returns (f: uint32)
    requires sig < CARRY
    ensures 0 <= exp0 <= 254 && (if exp0 == 0 then sig < LEADING else sig >= LEADING) ==>
      f == WithSign(sign, Finished(exp0, sig))
    ensures exp0 >= 255 && sig >= LEADING ==> f == sign * SIGN_BIT + Wrapped(exp0, sig)
  {
    var exp: int := exp0;
    var GRS, sig_grs := sig % 8, sig / 8;
    if GRS > 4 {
      sig_grs := sig_grs + 1;
      if sig_grs / HIDDEN > 1 {
        exp := exp + 1;
        if exp >= 0xff {
          return if sign == 1 then N_INF_F else P_INF_F;
        }
        sig_grs := sig_grs / 2;
      }
    } else if GRS == 4 {
      if sig_grs % 2 == 1 {
        sig_grs := sig_grs + 1;
        if sig_grs / HIDDEN > 1 {
          exp := exp + 1;
          if exp >= 0xff {
            return if sign == 1 then N_INF_F else P_INF_F;
          }
          sig_grs := sig_grs / 2;
        }
      }
    }
    sig_grs := sig_grs % HIDDEN;
    f := Pack(sign, exp % 256, sig_grs);
  }

  /** Lines 24 to 49 left the exponent at infinity. */
  lemma ShiftedToInfinity(s0: nat, E: int, t: nat)
    requires E + t >= 255 && Jam(s0, t) >= LEADING
    ensures RoundNE(Num(s0, E), Den(E)) == INF
    ensures !CarryLost(Num(s0, E), Den(E))
  {
    JamScaled(s0, t, Lift(E), LEADING);
    UnitAt(E, t);
    TooLarge(Num(s0, E), Den(E), E + t - 1, Pow2(t) * Lift(E));
    RoundHuge(Num(s0, E), Den(E));
    NotNearTheSubnormals(Num(s0, E), Den(E));
  }

  lemma TooLarge(X: nat, D: nat, k: nat, W: nat)
    requires k >= 254 && Pow2(k) * D == 8 * W && X >= LEADING * W
    ensures X >= Grid(INF, D)
  {
    GridAt(254, 2 * HIDDEN, D);
    hide Grid;
    Pow2Mono(254, k);
    MulLe(Pow2(254), Pow2(k), D);
    MulAssoc(2, Pow2(253), D, Pow2(253) * D);
  }

  lemma NotNearTheSubnormals(X: nat, D: nat)
    requires X >= Grid(INF, D)
    ensures !CarryLost(X, D)
  {
    GridMono(HIDDEN, INF, D);
  }

  /** Lines 64 to 72: the exponent is still negative once the significand has been shifted out. */
  lemma ShiftedToZero(s0: nat, E: int, t: nat)
    requires E + t < 0 && Jam(s0, t) <= 4
    ensures RoundNE(Num(s0, E), Den(E)) == 0
    ensures !CarryLost(Num(s0, E), Den(E))
  {
    JamOrder(s0, t, 4);
    Pow2Sum(4 - E - t, t);
    Pow2Mono(4, 4 - E - t);
    assert Pow2(4) == 16;
    MulLe(16, Pow2(4 - E - t), Pow2(t));
    RoundsToZero(s0, Den(E));
  }

  lemma RoundsToZero(X: nat, D: nat)
    requires D > 0 && 4 * X <= D
    ensures RoundNE(X, D) == 0
    ensures !CarryLost(X, D)
  {
    RoundUnique(X, D, 0);
  }

  /** Shifting left by `k` while counting the exponent down keeps the value. */
  lemma ShiftLeftKeepsValue(s0: nat, E: int, k: nat)
    ensures Num(s0 * Pow2(k), E - k) * Den(E) == Num(s0, E) * Den(E - k)
  {
    if E - k >= 4 {
      Pow2Sum(k, E - k - 4);
      MulAssoc(s0, Pow2(k), Pow2(E - k - 4), Pow2(E - 4));
    } else if E >= 4 {
      Pow2Sum(E - 4, 4 - (E - k));
      MulAssoc(s0, Pow2(E - 4), Pow2(4 - (E - k)), Pow2(k));
    } else {
      Pow2Sum(k, 4 - E);
      MulAssoc(s0, Pow2(k), Pow2(4 - E), Pow2(4 - (E - k)));
    }
  }

  lemma SameValueSameResult(X: nat, D: nat, Y: nat, C: nat)
    requires D > 0 && C > 0 && X * C == Y * D
    ensures RoundNE(X, D) == RoundNE(Y, C)
    ensures CarryLost(X, D) == CarryLost(Y, C)
  {
    RoundSame(X, D, Y, C);
    CarryLostScale(X, D, C);
    CarryLostScale(Y, C, D);
    assert D * C == C * D;
  }

  lemma CarryLostScale(X: nat, D: nat, c: nat)
    requires c > 0
    ensures CarryLost(X * c, D * c) == CarryLost(X, D)
  {
    ScaleOrder(2 * X, 2 * HIDDEN * D, c);
    ScaleOrder(2 * X, (2 * HIDDEN - 1) * D, c);
    assert 2 * X * c == 2 * (X * c);
    assert 2 * HIDDEN * D * c == 2 * HIDDEN * (D * c);
    assert (2 * HIDDEN - 1) * D * c == (2 * HIDDEN - 1) * (D * c);
  }

  /** The value reached by shifting left, rounded off. */
  lemma LeftNormalized(s0: nat, E: int, k: nat, s: nat)
    requires s == s0 * Pow2(k)
    requires 1 <= E - k <= 254 && s < CARRY && (E - k == 1 || s >= LEADING)
    ensures RoundNE(Num(s0, E), Den(E)) == RoundedOff(E - k, s)
    ensures CarryLost(Num(s0, E), Den(E)) <==> E - k == 1 && s / 8 == HIDDEN - 1 && Up(s) == 1
  {
    GrsDecides(s, E - k, 0);
    ShiftLeftKeepsValue(s0, E, k);
    SameValueSameResult(Num(s, E - k), Den(E - k), Num(s0, E), Den(E));
  }

  /** A significand with its leading bit in place at exponent 255 or more is 2^128 or more. */
  lemma LeftNormalizedTooLarge(s0: nat, E: int, k: nat)
    requires E - k >= 255 && s0 * Pow2(k) >= LEADING
    ensures Num(s0, E) >= Grid(INF, 1)
  {
    ShiftLeftKeepsValue(s0, E, k);
    UnitAt(E - k, 0);
    MulLe(LEADING, s0 * Pow2(k), Pow2(E - k - 4));
    TooLarge(Num(s0, E), 1, E - k - 1, Pow2(E - k - 4));
  }

  /** Lines 24 to 40: shift right, jamming, until the significand fits or the exponent runs out. */
  method ShiftRight(exp0: int32, sig0: uint64) returns (exp: int32, sig_grs: uint64)
    requires sig0 >= CARRY || exp0 < 0
    ensures exp0 <= exp && sig_grs == Jam(sig0, exp - exp0)
    ensures exp < 255 ==> sig_grs < CARRY
    ensures exp < 0 ==> sig_grs <= 4
    ensures exp > 0 ==> sig_grs >= LEADING
    ensures exp == 0 ==> exp0 < 0
  {
    exp, sig_grs := exp0, sig0;
    var sticky: bit := 0;
    while (sig_grs / LEADING > 1 && exp < 0xff) || (sig_grs > 4 && exp < 0)
      invariant exp0 <= exp && sig_grs == Jam(sig0, exp - exp0)
      invariant sticky == 1 ==> sig_grs % 2 == 1
      invariant exp > 0 ==> sig_grs >= LEADING
      invariant exp == 0 ==> exp0 < 0 || sig_grs >= CARRY
      decreases 255 - exp
    {
      sticky := if sticky == 1 || sig_grs % 2 == 1 then 1 else 0;
      sig_grs := sig_grs / 2;
      sig_grs := OrBit(sig_grs, sticky);
      exp := exp + 1;
    }
  }

  /** Lines 79 to 89: shift left until the leading bit is in place or the exponent runs out. */
  method ShiftLeft(exp0: int32, sig0: uint64) returns (exp: int32, sig_grs: uint64)
    requires exp0 > 0 && sig0 < LEADING
    ensures 0 <= exp < exp0 && sig_grs == Shl(sig0, exp0 - exp) < CARRY
    ensures exp > 0 ==> sig_grs >= LEADING
    ensures sig_grs % 2 == 0 && sig_grs / 2 == Shl(sig0, exp0 - exp - 1) < LEADING
  {
    hide Shl;
    ShlStep(sig0, 0);
    exp, sig_grs := exp0, sig0;
    ghost var k: nat := 0;
    while sig_grs / LEADING == 0 && exp > 0
      invariant exp == exp0 - k >= 0
      invariant sig_grs == Shl(sig0, k) < CARRY
      invariant k == 0 ==> sig_grs < LEADING
      invariant k > 0 ==> sig_grs == 2 * Shl(sig0, k - 1)
      decreases exp
    {
      ShlStep(sig0, k);
      sig_grs := sig_grs * 2;
      exp := exp - 1;
      k := k + 1;
    }
  }

  /** After shifting right to a positive exponent. */
  lemma RightNormal(exp0: int, sig0: nat, exp: int)
    requires sig0 >= CARRY || exp0 < 0
    requires exp0 <= exp && 0 < exp <= 254 && LEADING <= Jam(sig0, exp - exp0) < CARRY
    ensures Normalized(exp0, sig0) == Finished(exp, Jam(sig0, exp - exp0))
  {
    GrsDecides(sig0, exp0, exp - exp0);
  }

  /** After shifting right to exponent 0 and once more. */
  lemma RightSubnormal(exp0: int, sig0: nat)
    requires exp0 < 0 && Jam(sig0, -exp0) < CARRY
    ensures Jam(sig0, 1 - exp0) == JamOnce(Jam(sig0, -exp0)) < LEADING
    ensures Normalized(exp0, sig0) == Finished(0, Jam(sig0, 1 - exp0))
  {
    GrsDecides(sig0, exp0, 1 - exp0);
  }

  lemma RightInfinity(exp0: int, sig0: nat, exp: int)
    requires sig0 >= CARRY || exp0 < 0
    requires exp0 <= exp && exp >= 255 && Jam(sig0, exp - exp0) >= LEADING
    ensures Normalized(exp0, sig0) == INF
  {
    ShiftedToInfinity(sig0, exp0, exp - exp0);
  }

  lemma RightZero(exp0: int, sig0: nat, exp: int)
    requires exp0 <= exp < 0 && Jam(sig0, exp - exp0) <= 4
    ensures Normalized(exp0, sig0) == 0
  {
    ShiftedToZero(sig0, exp0, exp - exp0);
  }

  /** After shifting left by `k`, possibly none, to a positive exponent. */
  lemma LeftNormal(exp0: int, sig0: nat, k: nat)
    requires sig0 < CARRY && Normalizable(exp0, sig0)
    requires 0 < exp0 - k && LEADING <= Shl(sig0, k) < CARRY
    ensures exp0 - k <= 254
    ensures Normalized(exp0, sig0) == Finished(exp0 - k, Shl(sig0, k))
  {
    ShlIsProduct(sig0, k);
    if exp0 - k > 254 {
      LeftNormalizedTooLarge(sig0, exp0, k);
    } else {
      LeftNormalized(sig0, exp0, k, Shl(sig0, k));
    }
  }

  /** After shifting left to exponent 0 and right again. */
  lemma LeftSubnormal(exp0: int, sig0: nat)
    requires exp0 > 0 && Shl(sig0, exp0 - 1) < LEADING
    ensures Normalized(exp0, sig0) == Finished(0, Shl(sig0, exp0 - 1))
  {
    ShlIsProduct(sig0, exp0 - 1);
    LeftNormalized(sig0, exp0, exp0 - 1, Shl(sig0, exp0 - 1));
  }

  /** Exponent 0 with a significand below 2^27 needs no shifting. */
  lemma AtExponentZero(sig0: nat)
    requires sig0 < CARRY
    ensures Normalized(0, sig0) == Finished(if sig0 < LEADING then 0 else 1, sig0)
  {
    LeftNormalized(sig0, 1, 0, sig0);
  }

  method InternalNormalize(sign: bit, exp0: int32, sig0: uint64) returns (f: uint32)
    ensures Normalizable(exp0, sig0) ==> f == WithSign(sign, Normalized(exp0, sig0))
    ensures !Normalizable(exp0, sig0) ==>
      exists k: nat :: exp0 - k >= 255 && LEADING <= Shl(sig0, k) < CARRY
          && f == sign * SIGN_BIT + Wrapped(exp0 - k, Shl(sig0, k))
  {
    hide Normalized, Normalizable, Wrapped, Finished, Shl;
    if exp0 < 255 || sig0 >= CARRY {
      BelowInfinity(exp0, sig0);
    }
    ghost var k: nat := 0;
    ShlStep(sig0, 0);
    var exp, sig_grs, sticky: bit := exp0, sig0, 0;
    if sig_grs / LEADING > 1 || exp < 0 {
      exp, sig_grs := ShiftRight(exp0, sig0);
      if exp >= 0xff {
        RightInfinity(exp0, sig0, exp);
        return if sign == 1 then N_INF_F else P_INF_F;
      }
      if exp == 0 {
        RightSubnormal(exp0, sig0);
        sticky := sig_grs % 2;
        sig_grs := sig_grs / 2;
        sig_grs := OrBit(sig_grs, sticky);
      }
      if exp < 0 {
        RightZero(exp0, sig0, exp);
        return if sign == 1 then N_ZERO_F else P_ZERO_F;
      }
      if exp > 0 {
        RightNormal(exp0, sig0, exp);
      }
    } else if sig_grs / LEADING == 0 && exp > 0 {
      exp, sig_grs := ShiftLeft(exp0, sig0);
      k := exp0 - exp;
      if exp <= 254 {
        JustifiedIsNormalizable(exp0, sig0, k);
      }
      if exp == 0 {
        sticky := sig_grs % 2;
        sig_grs := sig_grs / 2;
        sig_grs := OrBit(sig_grs, sticky);
        LeftSubnormal(exp0, sig0);
      } else if Normalizable(exp0, sig0) {
        LeftNormal(exp0, sig0, exp0 - exp);
      }
    } else if exp == 0 && sig_grs / LEADING == 1 {
      AtExponentZero(sig0);
      exp := exp + 1;
    } else if exp == 0 {
      AtExponentZero(sig0);
    } else if Normalizable(exp0, sig0) {
      LeftNormal(exp0, sig0, 0);
    }
    if 0 <= exp0 - k <= 254 && Shl(sig0, k) < CARRY {
      JustifiedIsNormalizable(exp0, sig0, k);
    }
    f := RoundOff(sign, exp, sig_grs);
  }

  lemma BelowInfinity(exp: int, sig: nat)
    requires exp < 255 || sig >= CARRY
    ensures Normalizable(exp, sig)
  {
  }
}
