/** `internal_float_mul`. */
module FpuMul {
  import opened Powers
  import opened Binary32
  import opened Rounding
  import opened Ieee754
  import opened FpuNormalize

  const CORNER_MUL := [
    Rule(P_ZERO_F, P_INF_F, N_NAN_F),
    Rule(P_ZERO_F, N_INF_F, N_NAN_F),
    Rule(N_ZERO_F, P_INF_F, N_NAN_F),
    Rule(N_ZERO_F, N_INF_F, N_NAN_F),
    Rule(P_INF_F, P_ZERO_F, N_NAN_F),
    Rule(P_INF_F, N_ZERO_F, N_NAN_F),
    Rule(N_INF_F, P_ZERO_F, N_NAN_F),
    Rule(N_INF_F, N_ZERO_F, N_NAN_F)
  ]

  // ---------- where the result is off ----------

  /** The product's exponent is 0 and its significand does not show that 0 is meant literally. */
  predicate AmbiguousExponent(a: uint32, b: uint32) {
    ProductExponent(a, b) == 0 && ProductSignificand(a, b) < CARRY
  }

  /** The exact product is below 2^-126 by at most half the spacing of the subnormals. */
  predicate ProductLosesCarry(a: uint32, b: uint32)
    requires IsFinite(a) && IsFinite(b)
  {
    CarryLost(Mag(a) * Mag(b), Pow2(149))
  }

  predicate MulDeviates(a: uint32, b: uint32) {
    || UnknownNaNOperand(a, b)
    || (IsFinite(a) && IsFinite(b) && !IsZero(a) && !IsZero(b)
        && (AmbiguousExponent(a, b) || ProductLosesCarry(a, b)))
  }

  // ---------- the product of the significands ----------

  function ProductExponent(a: uint32, b: uint32): int {
    EffExponent(a) + EffExponent(b) - 147
  }

  function ProductSignificand(a: uint32, b: uint32): nat {
    Significand(a) * Significand(b)
  }

  /** The pattern that the routine computes for two numbers. */
  function ComputedProduct(a: uint32, b: uint32): (n: nat)
    ensures n <= INF
  {
    Normalized(ProductExponent(a, b), ProductSignificand(a, b))
  }

  /** The pattern that the standard asks for. */
  function ExactProduct(a: uint32, b: uint32): (n: nat)
    requires IsFinite(a) && IsFinite(b)
    ensures n <= INF
  {
    RoundNE(Mag(a) * Mag(b), Pow2(149))
  }

  /** The product of the significands at that exponent is the exact product. */
  lemma ProductValue(a: uint32, b: uint32)
    requires IsFinite(a) && IsFinite(b)
    ensures var P, E := ProductSignificand(a, b), ProductExponent(a, b);
      Num(P, E) * Pow2(149) == Mag(a) * Mag(b) * Den(E)
  {
    hide Mag, EffExponent, Significand, IsFinite, Pow2, Num, Den;
    var ea, eb, sa, sb := EffExponent(a), EffExponent(b), Significand(a), Significand(b);
    var E := ProductExponent(a, b);
    MagOfFields(a);
    MagOfFields(b);
    Pow2Sum(ea - 1, eb - 1);
    FourFactors(sa, Pow2(ea - 1), sb, Pow2(eb - 1), Pow2(ea - 1 + (eb - 1)));
    ProductScale(sa * sb, E, ea - 1 + (eb - 1), Mag(a) * Mag(b));
  }

  lemma ProductScale(P: nat, E: int, k: nat, X: nat)
    requires k == E + 145 && X == P * Pow2(k)
    ensures Num(P, E) * Pow2(149) == X * Den(E)
  {
    if E >= 4 {
      Pow2Sum(E - 4, 149);
      MulAssoc(P, Pow2(E - 4), Pow2(149), Pow2(k));
    } else {
      Pow2Sum(k, 4 - E);
      MulAssoc(P, Pow2(k), Pow2(4 - E), Pow2(149));
    }
  }

  lemma FourFactors(w: int, x: int, y: int, z: int, xz: int)
    requires xz == x * z
    ensures w * x * (y * z) == w * y * xz
  {
  }

  /** Outside the ambiguous case the value is right, and only the carry can be lost. */
  lemma UnambiguousProduct(a: uint32, b: uint32)
    requires IsFinite(a) && IsFinite(b) && !AmbiguousExponent(a, b)
    ensures ComputedProduct(a, b) == ExactProduct(a, b) <==> !ProductLosesCarry(a, b)
  {
    hide ProductSignificand, ProductExponent, IsFinite, Mag, Pow2, Num, Den, RoundNE, Normalized, CarryLost;
    ProductValue(a, b);
    ScaledRounding(ProductSignificand(a, b), ProductExponent(a, b), Mag(a) * Mag(b), Pow2(149));
  }

  lemma ScaledRounding(P: nat, E: int, X: nat, D: nat)
    requires D > 0 && Num(P, E) * D == X * Den(E)
    requires EntryExponent(E, P) == E
    ensures Normalized(E, P) == RoundNE(X, D) <==> !CarryLost(X, D)
  {
    SameValueSameResult(Num(P, E), Den(E), X, D);
    NormalizedIsRounding(E, P);
  }

  /** The rounding of X / D, or zero where the carry out of the subnormals is lost. */
  function CarryDropped(X: nat, D: nat): nat
    requires D > 0
  {
    if CarryLost(X, D) then 0 else RoundNE(X, D)
  }

  /** Twice the exact product, rounded, or zero where its carry is lost. */
  function DoubledProduct(a: uint32, b: uint32): nat
    requires IsFinite(a) && IsFinite(b)
  {
    CarryDropped(2 * (Mag(a) * Mag(b)), Pow2(149))
  }

  /**
   * In the ambiguous case twice the product is rounded, or its carry lost, and the result is never
   * the right one.
   */
  lemma AmbiguousProduct(a: uint32, b: uint32)
    requires IsFinite(a) && IsFinite(b) && !IsZero(a) && !IsZero(b) && AmbiguousExponent(a, b)
    ensures ComputedProduct(a, b) == DoubledProduct(a, b)
    ensures ComputedProduct(a, b) != ExactProduct(a, b)
  {
    hide Num, Den, Mag, Normalized, CarryLost, RoundNE, Significand, EffExponent, Pow2;
    ProductAtLeastHidden(a, b);
    ProductValue(a, b);
    RoundsDoubled(ProductSignificand(a, b), ProductExponent(a, b), Mag(a) * Mag(b), Pow2(149));
  }

  lemma RoundsDoubled(P: nat, E: int, X: nat, D: nat)
    requires E == 0 && HIDDEN <= P < CARRY && D > 0 && Num(P, E) * D == X * Den(E)
    ensures Normalized(E, P) == CarryDropped(2 * X, D)
    ensures Normalized(E, P) != RoundNE(X, D)
  {
    RoundSame(Num(P, E), Den(E), X, D);
    DoubledValue(P);
    assert Den(0) == 16 && Den(1) == 8 && Num(P, 0) == P && Num(P, 1) == P;
    hide RoundNE, CarryLost, Num, Den;
    SameValueSameResult(P, 8, 2 * X, D);
  }

  lemma ProductAtLeastHidden(a: uint32, b: uint32)
    requires !IsZero(a) && !IsZero(b) && ProductExponent(a, b) == 0
    ensures ProductSignificand(a, b) >= HIDDEN
  {
    NonzeroSignificand(a);
    NonzeroSignificand(b);
    if Exponent(a) != 0 {
      MulLe(1, Significand(b), Significand(a));
    } else {
      MulLe(1, Significand(a), Significand(b));
    }
  }

  lemma NonzeroSignificand(v: uint32)
    requires !IsZero(v)
    ensures Significand(v) >= 1
  {
    ClassesByFields(v);
  }

  lemma DoubledValue(P: nat)
    requires HIDDEN <= P < CARRY
    ensures Normalized(0, P) != RoundNE(Num(P, 0), Den(0))
  {
    assert Den(0) == 16 && Den(1) == 8;
    SmallRounding(P, 8, P / 8);
    SmallRounding(P, 16, P / 16);
    hide RoundNE;
  }

  /** Below 2^24 units floats are the integers. */
  lemma SmallRounding(P: nat, D: nat, q: nat)
    requires D > 0 && q < 2 * HIDDEN && q * D <= P <= (q + 1) * D
    ensures q <= RoundNE(P, D) <= q + 1
  {
    assert Grid(q, 1) == q && Grid(HIDDEN, 1) == HIDDEN && Grid(q + 1, 1) == q + 1;
    RoundExact(q);
    RoundExact(q + 1);
    hide RoundNE, Grid;
    RoundMono(q, 1, P, D);
    RoundMono(P, D, q + 1, 1);
  }

  // ---------- the routine ----------

  lemma MulTableEntries(a: uint32, b: uint32)
    requires forall k | 0 <= k < |CORNER_MUL| :: !(CORNER_MUL[k].a == a && CORNER_MUL[k].b == b)
    ensures a == P_ZERO_F || a == N_ZERO_F ==> b != P_INF_F && b != N_INF_F
    ensures a == P_INF_F || a == N_INF_F ==> b != P_ZERO_F && b != N_ZERO_F
  {
    var t := CORNER_MUL;
    assert t[0] == t[0] && t[1] == t[1] && t[2] == t[2] && t[3] == t[3];
    assert t[4] == t[4] && t[5] == t[5] && t[6] == t[6] && t[7] == t[7];
  }

  /** Lines 348 to 399, for operands that are neither zero nor infinite. */
  method MulNumbers(b: uint32, a: uint32) returns (r: uint32)
    requires !IsZero(a) && !IsZero(b)
    ensures r == WithSign(XorSign(a, b), ComputedProduct(a, b))
  {
    ClassesByFields(a);
    ClassesByFields(b);
    hide Normalized, Normalizable, Exponent, Fraction, Sign, IsZero;
    var sig_a, sig_b: nat := Fraction(a), Fraction(b);
    if Exponent(a) != 0 {
      sig_a := sig_a + 0x80_0000;
    }
    if Exponent(b) != 0 {
      sig_b := sig_b + 0x80_0000;
    }
    var exp_a: int, exp_b: int := Exponent(a), Exponent(b);
    if exp_a == 0 {
      exp_a := exp_a + 1;
    }
    if exp_b == 0 {
      exp_b := exp_b + 1;
    }
    var sig_res := MultiplySignificands(sig_a, sig_b);
    var exp_res: int32 := exp_a + exp_b - 127 - 23 + 3;
    ProductNormalizable(exp_res, sig_res);
    r := InternalNormalize(XorSign(a, b), exp_res, sig_res);
  }

  lemma ProductNormalizable(exp: int, sig: nat)
    requires exp < 255 || sig >= CARRY
    ensures Normalizable(exp, sig)
  {
  }

  /** Line 365. */
  method MultiplySignificands(sig_a: nat, sig_b: nat) returns (sig_res: uint64)
    requires sig_a < 2 * HIDDEN && sig_b < 2 * HIDDEN
    ensures sig_res == sig_a * sig_b
    ensures sig_a >= HIDDEN && sig_b >= HIDDEN ==> sig_res >= CARRY
  {
    ProductFits(sig_a, sig_b);
    sig_res := sig_a * sig_b;
  }

  lemma ProductFits(x: nat, y: nat)
    requires x < 2 * HIDDEN && y < 2 * HIDDEN
    ensures x * y < 4 * HIDDEN * HIDDEN
    ensures x >= HIDDEN && y >= HIDDEN ==> x * y >= CARRY
  {
    MulLe(x, 2 * HIDDEN, y);
    if x >= HIDDEN && y >= HIDDEN {
      MulLe(HIDDEN, x, y);
    }
  }

  lemma MulTableConforms(i: nat)
    requires i < |CORNER_MUL|
    ensures var t := CORNER_MUL[i]; MulConforms(t.a, t.b, t.res) && !MulDeviates(t.a, t.b)
  {
  }

  lemma MulTableBits(i: nat)
    requires i < |CORNER_MUL|
    ensures var t := CORNER_MUL[i]; SpecialProduct(t.a, t.b, t.res)
  {
  }

  /** The early returns, in bits. */
  lemma ProductBits(a: uint32, b: uint32, r: uint32)
    requires !(Zero(a) && Infinite(b)) && !(Infinite(a) && Zero(b))
    requires
      || ((Quiet(a) || Quiet(b)) && r == QuietOf(a, b))
      || (!Quiet(a) && !Quiet(b) && (Zero(a) || Zero(b)) && r == WithSign(XorSign(a, b), 0))
      || (!Quiet(a) && !Quiet(b) && (Infinite(a) || Infinite(b)) && r == WithSign(XorSign(a, b), INF))
      || (!Quiet(a) && !Quiet(b) && !Zero(a) && !Zero(b) && !Infinite(a) && !Infinite(b) &&
          exists n: nat | n <= INF :: r == WithSign(XorSign(a, b), n))
    ensures SpecialProduct(a, b, r)
  {
    BitSigns(a, b);
    BitClasses(a);
    BitClasses(b);
    hide Quiet, Infinite, Zero, NotANumber, XorSign, OppositeSigns;
  }

  /** a * b, for every pair of encodings. */
  method InternalFloatMul(b: uint32, a: uint32) returns (r: uint32)
    ensures MulConforms(a, b, r) <==> !MulDeviates(a, b)
    ensures IsFinite(a) && IsFinite(b) && !IsZero(a) && !IsZero(b) ==>
      r == WithSign(XorSign(a, b), ComputedProduct(a, b))
    ensures SpecialProduct(a, b, r)
  {
    var i := FindCorner(CORNER_MUL, a, b);
    if i < |CORNER_MUL| {
      MulTableConforms(i);
      MulTableBits(i);
      return CORNER_MUL[i].res;
    }
    MulTableEntries(a, b);
    ClassesByConstants(a);
    ClassesByConstants(b);
    BitClasses(a);
    BitClasses(b);
    hide Quiet, Infinite, Zero, NotANumber, SpecialProduct;
    hide ComputedProduct, RoundedProduct, ProductLosesCarry, AmbiguousExponent;
    hide IsNaN, IsInf, IsZero, IsFinite, Sign, Exponent, Fraction;
    if a == P_NAN_F || a == N_NAN_F || b == P_NAN_F || b == N_NAN_F {
      r := if a == P_NAN_F || b == P_NAN_F then P_NAN_F else N_NAN_F;
      ClassesByConstants(r);
      ProductBits(a, b, r);
      return;
    }
    if a == P_ZERO_F || a == N_ZERO_F || b == P_ZERO_F || b == N_ZERO_F {
      ZeroProduct(a, b);
      r := if XorSign(a, b) == 1 then N_ZERO_F else P_ZERO_F;
      ClassesByConstants(r);
      ProductBits(a, b, r);
      return;
    }
    if a == P_INF_F || a == N_INF_F || b == P_INF_F || b == N_INF_F {
      r := if XorSign(a, b) == 1 then N_INF_F else P_INF_F;
      ClassesByConstants(r);
      ProductBits(a, b, r);
      return;
    }
    r := MulNumbers(b, a);
    WithSignIsNumber(XorSign(a, b), ComputedProduct(a, b));
    ProductBits(a, b, r);
    if IsFinite(a) && IsFinite(b) {
      FiniteProduct(a, b);
    }
  }

  lemma ZeroProduct(a: uint32, b: uint32)
    requires IsZero(a) || IsZero(b)
    ensures IsFinite(a) && IsFinite(b) ==> RoundedProduct(a, b) == WithSign(XorSign(a, b), 0)
  {
    if IsFinite(a) && IsFinite(b) {
      assert Mag(a) * Mag(b) == 0;
      RoundExact(0);
      RoundSame(0, Pow2(149), 0, 1);
    }
  }

  /** The result against the standard's, for any two finite operands but zeros. */
  lemma FiniteProduct(a: uint32, b: uint32)
    requires IsFinite(a) && IsFinite(b) && !IsZero(a) && !IsZero(b)
    ensures WithSign(XorSign(a, b), ComputedProduct(a, b)) == RoundedProduct(a, b)
       <==> !AmbiguousExponent(a, b) && !ProductLosesCarry(a, b)
  {
    hide ComputedProduct, ProductLosesCarry, RoundNE, Mag, Pow2, IsZero, IsFinite, Sign;
    if AmbiguousExponent(a, b) {
      AmbiguousProduct(a, b);
    } else {
      UnambiguousProduct(a, b);
    }
  }
}
