/** How far the products and quotients stray where they do, and operands for which they do. */
module FpuDeviations {
  import opened Powers
  import opened Binary32
  import opened Rounding
  import opened Ieee754
  import opened FpuNormalize
  import opened FpuAdd
  import opened FpuMul
  import opened FpuDiv

  // ---------- a lost sticky bit ----------

  /** X/D lies above the midpoint of `n` and `n + 1`, by less than 2^-16 of their distance. */
  predicate JustAboveMidpoint(X: nat, D: nat, n: nat)
    requires n < INF
  {
    var lo, hi := Grid(n, D), Grid(n + 1, D);
    lo + hi < 2 * X && (2 * X - (lo + hi)) * 0x8000 < hi - lo
  }

  /** A division that loses its sticky bit returns the float just below the right one. */
  lemma StickyCostsOneUlp(a: uint32, b: uint32)
    requires Divisible(a, b) && Significand(a) > 0 && Significand(b) > 0
    requires QuotientLosesSticky(a, b) && !QuotientLosesCarry(a, b)
    ensures var n := ComputedQuotient(a, b);
      && n < INF && ExactQuotient(a, b) == n + 1
      && JustAboveMidpoint(Mag(a) * Pow2(149), Mag(b), n)
  {
    hide Mag, Significand, EffExponent, Lift, Den, Normalized, CarryLost, RoundNE, QuotientExponent, Numerator,
         Divisor, Grid, Pow2, StickyLost;
    var A, B, E := Numerator(a), Divisor(b), QuotientExponent(a, b);
    QuotientIsLarge(A, B);
    QuotientValue(a, b);
    SameValueSameResult(A * Lift(E), Den(E) * B, Mag(a) * Pow2(149), Mag(b));
    StickyExcess(A, B, E);
    ExcessByRatio(A * Lift(E), Den(E) * B, Mag(a) * Pow2(149), Mag(b), ComputedQuotient(a, b));
  }

  lemma StickyExcess(A: nat, B: nat, E: int)
    requires A >= TOP && 0 < B < 2 * HIDDEN && A / B >= CARRY && StickyLost(A, B, E)
    requires !CarryLost(A * Lift(E), Den(E) * B)
    ensures var n := Normalized(E, A / B);
      && n < INF && RoundNE(A * Lift(E), Den(E) * B) == n + 1
      && JustAboveMidpoint(A * Lift(E), Den(E) * B, n)
  {
    hide Grid, Lift, Den, Shifts, Pow2, Num, RoundNE, CarryLost;
    NumIsLifted(A / B, E);
    FloorLosesCarry(A, B, E);
    FloorRoundsInRange(A, B, E);
    MidpointOfFloor(A, B, E, Shifts(A / B, E));
  }

  lemma MidpointOfFloor(A: nat, B: nat, E: int, t: nat)
    requires A >= TOP && 0 < B < 2 * HIDDEN && A / B >= CARRY && StickyLost(A, B, E) && t == Shifts(A / B, E)
    ensures var n := RoundNE(Num(A / B, E), Den(E));
      n < INF && JustAboveMidpoint(A * Lift(E), Den(E) * B, n)
  {
    hide Grid, Lift, Den, Shifts, Pow2, RoundNE, Num;
    NumIsLifted(A / B, E);
    var F, L, D := A / B, Lift(E), Den(E);
    var h := F / Pow2(t + 3);
    var n, m := (E + t - 1) * HIDDEN + h, h * Pow2(t + 3) + Pow2(t + 2);
    FloorBetween(F, E, t, h, n, m);
    ManyShifts(A, B, E, t, h);
    MulAdd(h, 1, Pow2(t + 3));
    GridScale(n, D, B);
    GridScale(n + 1, D, B);
    ExcessAt(A, B, L, D, n, h * Pow2(t + 3), (h + 1) * Pow2(t + 3), m);
  }

  lemma ExcessAt(A: nat, B: nat, L: nat, D: nat, n: nat, lo: nat, hi: nat, m: nat)
    requires B > 0 && L > 0 && D > 0 && n < INF && n % 2 == 0
    requires A / B == m && A % B != 0 && lo + hi == 2 * m && hi - lo >= 0x1_0000
    requires Grid(n, D) == lo * L && Grid(n + 1, D) == hi * L
    requires Grid(n, D * B) == lo * L * B && Grid(n + 1, D * B) == hi * L * B
    ensures RoundNE(A / B * L, D) == n
    ensures JustAboveMidpoint(A * L, D * B, n)
  {
    hide Grid;
    AtTheMidpoint(A / B * L, D, n, lo, hi, m, L);
    ExcessOfRemainder(A, B, L, lo, hi, m, hi - lo);
  }

  /** A value on the midpoint above an even float rounds down to it. */
  lemma AtTheMidpoint(X: nat, D: nat, n: nat, lo: nat, hi: nat, m: nat, L: nat)
    requires D > 0 && L > 0 && n < INF && n % 2 == 0 && lo < hi && lo + hi == 2 * m && X == m * L
    requires Grid(n, D) == lo * L && Grid(n + 1, D) == hi * L
    ensures RoundNE(X, D) == n
  {
    hide Grid;
    MulAdd(lo, hi, L);
    MulAssoc(2, m, L, m * L);
    ScaleOrder(lo, m, L);
    ScaleOrder(m, hi, L);
    RoundBetween(X, D, n);
  }

  /** At least sixteen bits of the quotient are dropped. */
  lemma ManyShifts(A: nat, B: nat, E: int, t: nat, h: nat)
    requires A >= TOP && 0 < B < 2 * HIDDEN && A / B >= CARRY
    requires t == Shifts(A / B, E) && h == A / B / Pow2(t + 3)
    ensures Pow2(t + 3) >= 0x1_0000
  {
    hide Pow2, Shifts;
    ShiftsIs(A / B, E);
    QuotientBits(A, B);
    KeptBits(A / B, Pow2(t + 3));
    Pow2At16();
    if t + 3 <= 15 {
      Pow2Mono(t + 3, 15);
    } else {
      Pow2Mono(16, t + 3);
    }
  }

  lemma Pow2At16()
    ensures Pow2(15) == 0x8000 && Pow2(16) == 0x1_0000
  {
    assert Pow2(8) == 0x100;
  }

  lemma QuotientBits(A: nat, B: nat)
    requires A >= TOP && 0 < B < 2 * HIDDEN
    ensures A / B >= 0x80_0000_0000
  {
    DivMod(A, B);
    MulAdd(A / B, 1, B);
    if A / B < 0x80_0000_0000 {
      MulLe(A / B + 1, 0x80_0000_0000, B);
    }
  }

  lemma KeptBits(F: nat, T: nat)
    requires T > 0 && F / T < 2 * HIDDEN
    ensures F < 2 * HIDDEN * T
  {
    DivMod(F, T);
    MulAdd(F / T, 1, T);
    MulLe(F / T + 1, 2 * HIDDEN, T);
  }

  lemma ExcessOfRemainder(A: nat, B: nat, L: nat, lo: nat, hi: nat, m: nat, T: nat)
    requires B > 0 && L > 0 && A / B == m && A % B != 0 && lo + hi == 2 * m && hi - lo == T >= 0x1_0000
    ensures var lo', hi', X := lo * L * B, hi * L * B, A * L;
      lo' + hi' < 2 * X && (2 * X - (lo' + hi')) * 0x8000 < hi' - lo'
  {
    var r := A % B;
    DivMod(A, B);
    MulAdd(lo, hi, L);
    MulAdd(lo * L, hi * L, B);
    MulAdd(hi, lo, L);
    MulAdd(hi * L, lo * L, B);
    MulAdd(m * B, r, L);
    MulAssoc(m, B, L, B * L);
    MulAssoc(m, L, B, L * B);
    MulAssoc(2, m, L, m * L);
    MulAssoc(2, m * L, B, m * L * B);
    assert lo * L * B + hi * L * B == 2 * (m * (B * L));
    MulAssoc(T, L, B, L * B);
    assert hi * L * B - lo * L * B == T * (B * L);
    assert A * L == m * (B * L) + r * L;
    MulLe(1, r, L);
    MulLe(r + 1, B, L);
    MulAdd(r, 1, L);
    MulLe(0x1_0000, T, B * L);
  }

  /** The excess is a matter of the value alone. */
  lemma ExcessByRatio(Y: nat, C: nat, X: nat, D: nat, n: nat)
    requires C > 0 && D > 0 && Y * D == X * C && n < INF
    requires JustAboveMidpoint(Y, C, n)
    ensures JustAboveMidpoint(X, D, n)
  {
    GridScale(n, C, D);
    GridScale(n + 1, C, D);
    GridScale(n, D, C);
    GridScale(n + 1, D, C);
    assert C * D == D * C;
    hide Grid;
    ExcessScaled(Y, Grid(n, C), Grid(n + 1, C), D, X, Grid(n, D), Grid(n + 1, D), C);
  }

  lemma ExcessScaled(Y: int, lo: int, hi: int, D: nat, X: int, lo': int, hi': int, C: nat)
    requires C > 0 && D > 0 && Y * D == X * C && lo * D == lo' * C && hi * D == hi' * C
    requires lo + hi < 2 * Y && (2 * Y - (lo + hi)) * 0x8000 < hi - lo
    ensures lo' + hi' < 2 * X && (2 * X - (lo' + hi')) * 0x8000 < hi' - lo'
  {
    var u, v, u', v' := 2 * Y - (lo + hi), hi - lo, 2 * X - (lo' + hi'), hi' - lo';
    assert u * D == u' * C && v * D == v' * C;
    ScaleOrder(0, u, D);
    ScaleOrder(0, u', C);
    ScaleOrder(u * 0x8000, v, D);
    ScaleOrder(u' * 0x8000, v', C);
    assert u * 0x8000 * D == u' * 0x8000 * C;
  }

  /** X/D is at most half a gap below `n`, and above it by less than half a gap and 2^-16 of one. */
  predicate AlmostNearest(X: nat, D: nat, n: nat)
    requires n < INF
  {
    && (n > 0 ==> Grid(n - 1, D) + Grid(n, D) <= 2 * X)
    && (2 * X - (Grid(n, D) + Grid(n + 1, D))) * 0x8000 < Grid(n + 1, D) - Grid(n, D)
  }

  predicate QuotientAlmostNearest(a: uint32, b: uint32, n: nat)
    requires IsFinite(a) && IsFinite(b) && n < INF
  {
    AlmostNearest(Mag(a) * Pow2(149), Mag(b), n)
  }

  /** What `internal_float_div` returns is within 1/2 + 2^-16 units in the last place, overflow and lost carry apart. */
  lemma DivisionErrorBound(a: uint32, b: uint32, r: uint32)
    requires Divisible(a, b) && Significand(a) > 0 && Significand(b) > 0 && !QuotientLosesCarry(a, b)
    requires r == WithSign(XorSign(a, b), ComputedQuotient(a, b)) && IsFinite(r)
    ensures QuotientAlmostNearest(a, b, Pattern(r))
  {
    hide Mag, Significand, RoundNE, ComputedQuotient, QuotientLosesCarry, QuotientLosesSticky;
    hide Pattern, Sign, WithSign, Pow2, Grid;
    var X, D, n := Mag(a) * Pow2(149), Mag(b), ComputedQuotient(a, b);
    WithSignIsNumber(XorSign(a, b), n);
    QuotientValue(a, b);
    FiniteQuotient(a, b);
    GridMono(n, n + 1, D);
    if n > 0 {
      GridMono(n - 1, n, D);
    }
    if QuotientLosesSticky(a, b) {
      StickyCostsOneUlp(a, b);
    } else {
      RoundLocal(X, D);
    }
  }

  /** Where the carry is lost it returns a zero of the right sign, and the right result is 2^-126. */
  lemma DivisionCarryLost(a: uint32, b: uint32, r: uint32)
    requires Divisible(a, b) && Significand(a) > 0 && Significand(b) > 0 && QuotientLosesCarry(a, b)
    requires r == WithSign(XorSign(a, b), ComputedQuotient(a, b))
    ensures IsZero(r) && RoundedQuotient(a, b) == WithSign(XorSign(a, b), HIDDEN)
  {
    hide Mag, Significand, RoundNE, ComputedQuotient, QuotientLosesCarry, Sign, Pow2;
    LostCarryQuotientIsZero(a, b);
    WithSignIsNumber(XorSign(a, b), 0);
  }

  // ---------- representable quotients ----------

  /** An odd divisor of a number times a power of two divides the number. */
  lemma {:induction false} OddDivides(B: nat, x: nat, j: nat, c: nat)
    requires B % 2 == 1 && x * Pow2(j) == c * B
    ensures x % B == 0
  {
    if j == 0 {
      DivUnique(x, B, c, 0);
    } else {
      MulAssoc(x, 2, Pow2(j - 1), Pow2(j));
      MulAssoc(2, x, Pow2(j - 1), x * Pow2(j - 1));
      EvenFactor(c, B, x * Pow2(j - 1));
      MulAssoc(2, c / 2, B, c / 2 * B);
      OddDivides(B, x, j - 1, c / 2);
    }
  }

  lemma EvenFactor(c: nat, B: nat, y: nat)
    requires B % 2 == 1 && c * B == 2 * y
    ensures c % 2 == 0
  {
    var i := c / 2;
    MulAdd(2 * i, c % 2, B);
    MulAssoc(2, i, B, i * B);
  }

  /** A quotient that is a float is returned exactly. */
  lemma RepresentableQuotientIsExact(a: uint32, b: uint32, n: nat)
    requires Divisible(a, b) && Significand(a) > 0 && Significand(b) > 0
    requires n < INF && Mag(a) * Pow2(149) == Grid(n, 1) * Mag(b)
    ensures ComputedQuotient(a, b) == n
  {
    hide Mag, Significand, EffExponent, Lift, Den, RoundNE, QuotientExponent, Numerator, Divisor, Grid;
    var A, B, E := Numerator(a), Divisor(b), QuotientExponent(a, b);
    QuotientValue(a, b);
    RoundSame(Mag(a) * Pow2(149), Mag(b), Grid(n, 1), 1);
    RoundExact(n);
    FiniteQuotient(a, b);
    IntegerValueKeepsCarry(Grid(n, 1), Mag(b));
    ExactDivision(A, B, E, Grid(n, 1), Mag(b));
  }

  lemma IntegerValueKeepsCarry(g: nat, D: nat)
    requires D > 0
    ensures !CarryLost(g * D, D)
  {
    ScaleOrder(2 * g, 2 * HIDDEN, D);
    ScaleOrder(2 * g, 2 * HIDDEN - 1, D);
    MulAssoc(2, g, D, g * D);
  }

  lemma ExactDivision(A: nat, B: nat, E: int, g: nat, D: nat)
    requires D > 0 && B % 2 == 1 && A * Lift(E) * D == g * D * (Den(E) * B)
    ensures A % B == 0
  {
    CancelFactor(A * Lift(E), g, D, Den(E) * B);
    MulAssoc(g, Den(E), B, Den(E) * B);
    if E >= 4 {
      OddDivides(B, A, E - 4, g);
    } else {
      OddDivides(B, A, 0, g * Den(E));
    }
  }

  lemma CancelFactor(x: nat, g: nat, D: nat, C: nat)
    requires D > 0 && x * D == g * D * C
    ensures x == g * C
  {
    MulAssoc(g, D, C, D * C);
    MulAssoc(g, C, D, C * D);
    ScaleOrder(x, g * C, D);
  }

  // ---------- a lost carry ----------

  /** A product that loses its carry comes out as zero instead of 2^-126. */
  lemma LostCarryProductIsZero(a: uint32, b: uint32)
    requires IsFinite(a) && IsFinite(b) && !AmbiguousExponent(a, b) && ProductLosesCarry(a, b)
    ensures ComputedProduct(a, b) == 0 && ExactProduct(a, b) == HIDDEN
  {
    hide ProductSignificand, ProductExponent, IsFinite, Mag, Pow2, Num, Den, RoundNE, CarryLost;
    var P, E := ProductSignificand(a, b), ProductExponent(a, b);
    ProductValue(a, b);
    SameValueSameResult(Num(P, E), Den(E), Mag(a) * Mag(b), Pow2(149));
    CarryLostRounds(Mag(a) * Mag(b), Pow2(149));
  }

  /** So does a quotient. */
  lemma LostCarryQuotientIsZero(a: uint32, b: uint32)
    requires Divisible(a, b) && Significand(a) > 0 && Significand(b) > 0 && QuotientLosesCarry(a, b)
    ensures ComputedQuotient(a, b) == 0 && ExactQuotient(a, b) == HIDDEN
  {
    hide Mag, Significand, EffExponent, Lift, Den, CarryLost, RoundNE, QuotientExponent, Numerator, Divisor, Grid,
         Pow2;
    var A, B, E := Numerator(a), Divisor(b), QuotientExponent(a, b);
    QuotientIsLarge(A, B);
    QuotientValue(a, b);
    SameValueSameResult(A * Lift(E), Den(E) * B, Mag(a) * Pow2(149), Mag(b));
    CarryLostRounds(Mag(a) * Pow2(149), Mag(b));
    FloorLosesCarry(A, B, E);
    NumIsLifted(A / B, E);
  }

  lemma NumIsLifted(s: nat, E: int)
    ensures Num(s, E) == s * Lift(E)
  {
  }

  // ---------- operands that show each deviation ----------

  lemma PowersUpTo40()
    ensures Pow2(0) == 1 && Pow2(12) == 0x1000 && Pow2(13) == 0x2000 && Pow2(15) == 0x8000 && Pow2(16) == 0x1_0000
    ensures Pow2(23) == HIDDEN && Pow2(39) == 0x80_0000_0000 && Pow2(40) == 0x100_0000_0000
  {
    assert Pow2(8) == 0x100;
    assert Pow2(12) == 0x1000;
    assert Pow2(16) == 0x1_0000;
    assert Pow2(20) == 0x10_0000;
    assert Pow2(24) == 0x100_0000;
    assert Pow2(28) == 0x1000_0000;
    assert Pow2(32) == 0x1_0000_0000;
    assert Pow2(36) == 0x10_0000_0000;
  }

  /** 0x00ffffff * 0.5, half an ulp below 2^-126, comes out as zero. */
  lemma CarryLostExample()
    ensures ComputedProduct(0x00ff_ffff, 0x3f00_0000) == 0
    ensures ExactProduct(0x00ff_ffff, 0x3f00_0000) == HIDDEN
  {
    var a: uint32, b: uint32 := 0x00ff_ffff, 0x3f00_0000;
    hide Significand, EffExponent, Mag, ComputedProduct, ExactProduct, Pow2, CarryLost;
    hide IsFinite, AmbiguousExponent, Pattern;
    FieldsOfCarryExample();
    PowersUpTo40();
    MagOfFields(a);
    MagOfFields(b);
    Pow2Sum(23, 125);
    Doubled(148);
    HalfUlpBelow(Mag(a), Mag(b), Pow2(149), Pow2(148));
    LostCarryProductIsZero(a, b);
  }

  lemma FieldsOfCarryExample()
    ensures var a: uint32, b: uint32 := 0x00ff_ffff, 0x3f00_0000;
      && IsFinite(a) && IsFinite(b) && !AmbiguousExponent(a, b)
      && Significand(a) == 2 * HIDDEN - 1 && EffExponent(a) == 1 && Significand(b) == HIDDEN && EffExponent(b) == 126
  {
  }

  /** 0x00ffffff / 2 too. */
  lemma QuotientCarryExample()
    ensures Divisible(0x00ff_ffff, 0x4000_0000)
    ensures ComputedQuotient(0x00ff_ffff, 0x4000_0000) == 0 && ExactQuotient(0x00ff_ffff, 0x4000_0000) == HIDDEN
  {
    hide Significand, EffExponent, Mag, ComputedQuotient, ExactQuotient, QuotientLosesCarry, Pow2, Divisible;
    FieldsOfQuotientExample();
    QuotientCarryLost(0x00ff_ffff, 0x4000_0000);
  }

  lemma QuotientCarryLost(a: uint32, b: uint32)
    requires Divisible(a, b) && Significand(a) == 2 * HIDDEN - 1 && EffExponent(a) == 1
    requires Significand(b) == HIDDEN && EffExponent(b) == 128
    ensures ComputedQuotient(a, b) == 0 && ExactQuotient(a, b) == HIDDEN
  {
    hide Significand, EffExponent, Mag, ComputedQuotient, ExactQuotient, QuotientLosesCarry, Pow2, Pattern;
    PowersUpTo40();
    MagOfFields(a);
    MagOfFields(b);
    Pow2Sum(23, 127);
    Doubled(149);
    HalfBelow(a, b);
    LostCarryQuotientIsZero(a, b);
  }

  lemma FieldsOfQuotientExample()
    ensures var a: uint32, b: uint32 := 0x00ff_ffff, 0x4000_0000;
      && Divisible(a, b)
      && Significand(a) == 2 * HIDDEN - 1 && EffExponent(a) == 1 && Significand(b) == HIDDEN && EffExponent(b) == 128
  {
  }

  lemma HalfBelow(a: uint32, b: uint32)
    requires Divisible(a, b) && Mag(a) == 2 * HIDDEN - 1 && Mag(b) == 2 * Pow2(149)
    ensures QuotientLosesCarry(a, b)
  {
    hide Mag, Pow2, IsFinite, IsZero;
    MulAssoc(2 * HIDDEN - 1, 2, Pow2(149), 2 * Pow2(149));
  }

  lemma Doubled(k: nat)
    ensures Pow2(k + 1) == 2 * Pow2(k)
  {
  }

  lemma HalfUlpBelow(x: nat, y: nat, D: nat, p: nat)
    requires x == (2 * HIDDEN - 1) * 1 && y == p && D == 2 * p && p > 0
    ensures CarryLost(x * y, D)
  {
  }

  /** 2^-149 * 2^19 is 2^-130 and comes out as 2^-129. */
  lemma AmbiguousExponentExample()
    ensures AmbiguousExponent(0x0000_0001, 0x4900_0000)
    ensures ComputedProduct(0x0000_0001, 0x4900_0000) == 0x0010_0000
    ensures ExactProduct(0x0000_0001, 0x4900_0000) == 0x0008_0000
  {
    var a: uint32, b: uint32 := 0x0000_0001, 0x4900_0000;
    hide Significand, EffExponent, Mag, ComputedProduct, ExactProduct, Pow2, CarryLost, RoundNE;
    hide IsFinite, IsZero, AmbiguousExponent, Pattern;
    FieldsOfAmbiguous();
    MagOfFields(a);
    MagOfFields(b);
    Pow2Sum(4, 145);
    AmbiguousProduct(a, b);
    OneTimes(Mag(a), Mag(b), Pow2(145), Pow2(149));
    RoundedOnly(a, b);
  }

  lemma OneTimes(x: nat, y: nat, p: nat, D: nat)
    requires x == 1 && y == HIDDEN * p && D == 16 * p && p > 0
    ensures RoundNE(x * y, D) == 0x8_0000
    ensures RoundNE(2 * (x * y), D) == 0x10_0000 && !CarryLost(2 * (x * y), D)
  {
    assert x * y == y;
    hide RoundNE, CarryLost;
    SixteenthsOf(HIDDEN, p, y, D, 0x8_0000);
    SixteenthsOf(2 * HIDDEN, p, 2 * y, D, 0x10_0000);
  }

  lemma RoundedOnly(a: uint32, b: uint32)
    requires IsFinite(a) && IsFinite(b)
    ensures ExactProduct(a, b) == RoundNE(Mag(a) * Mag(b), Pow2(149))
  {
  }

  lemma FieldsOfAmbiguous()
    ensures var a: uint32, b: uint32 := 0x0000_0001, 0x4900_0000;
      && IsFinite(a) && IsFinite(b) && !IsZero(a) && !IsZero(b) && AmbiguousExponent(a, b)
      && Significand(a) == 1 && EffExponent(a) == 1 && Significand(b) == HIDDEN && EffExponent(b) == 146
    ensures Pow2(0) == 1 && Pow2(4) == 16
  {
  }

  lemma SixteenthsOf(s: nat, p: nat, X: nat, D: nat, n: nat)
    requires X == s * p && D == 16 * p && p > 0 && s == 16 * n && n < HIDDEN
    ensures RoundNE(X, D) == n && !CarryLost(X, D)
  {
    assert Grid(n, 1) == n;
    RoundExact(n);
    hide Grid, RoundNE, CarryLost;
    Regroup(n, p, X, D);
    RoundSame(X, D, n, 1);
    FarBelow(n, X, D);
  }

  lemma Regroup(n: nat, p: nat, X: nat, D: nat)
    requires X == 16 * n * p && D == 16 * p
    ensures X == n * D
  {
    MulAssoc(n, 16, p, D);
  }

  lemma FarBelow(n: nat, X: nat, D: nat)
    requires n < HIDDEN && X == n * D && D > 0
    ensures !CarryLost(X, D)
  {
    MulLe(n, HIDDEN - 1, D);
  }

  /** The same case can lose its carry too: 0.9999999 * 2^-127 comes out as zero. */
  lemma AmbiguousCarryExample()
    ensures AmbiguousExponent(0x0000_0004, 0x497f_ffff)
    ensures ComputedProduct(0x0000_0004, 0x497f_ffff) == 0
    ensures ExactProduct(0x0000_0004, 0x497f_ffff) == 0x0040_0000
  {
    var a: uint32, b: uint32 := 0x0000_0004, 0x497f_ffff;
    assert Significand(a) == 4 && EffExponent(a) == 1;
    assert Significand(b) == 0xff_ffff && EffExponent(b) == 146;
    MagOfFields(a);
    MagOfFields(b);
    assert Pow2(0) == 1;
    Pow2Sum(4, 145);
    assert Pow2(4) == 16;
    AmbiguousProduct(a, b);
    QuarterBelow(Mag(a) * Mag(b), Pow2(149), Pow2(145));
  }

  lemma QuarterBelow(X: nat, D: nat, p: nat)
    requires X == 0x3ff_fffc * p && D == 16 * p && p > 0
    ensures RoundNE(X, D) == 0x40_0000 && CarryLost(2 * X, D)
  {
    assert Grid(0x3f_ffff, D) == 0x3f_ffff * D && Grid(0x40_0000, D) == 0x40_0000 * D;
    RoundBetween(X, D, 0x3f_ffff);
  }

  lemma {:induction false} LeftShiftsAre(s: nat, k: nat)
    requires s > 0 && s * Pow2(k) >= TOP && (k > 0 ==> s * Pow2(k - 1) < TOP)
    ensures LeftShifts(s) == k
    decreases k
  {
    if k > 0 {
      MulLe(1, Pow2(k - 1), s);
      MulAssoc(s, 2, Pow2(k - 1), Pow2(k));
      if k > 1 {
        MulAssoc(s, 2, Pow2(k - 2), Pow2(k - 1));
      }
      LeftShiftsAre(2 * s, k - 1);
    }
  }

  lemma {:induction false} ShiftsAre(F: nat, E: nat, t: nat)
    requires E >= 1 && F / Pow2(t) < CARRY && (t > 0 ==> F / Pow2(t - 1) >= CARRY)
    ensures Shifts(F, E) == t
  {
    if t > 0 {
      HalveThenShift(F, t - 1);
      if t > 1 {
        HalveThenShift(F, t - 2);
      }
      DivMod(F, Pow2(t - 1));
      MulLe(1, Pow2(t - 1), F / Pow2(t - 1));
      ShiftsAre(F / 2, E + 1, t - 1);
    }
  }

  /** 1 / (2 - 2^-23) comes out as 0.5, one place below the right result. */
  lemma StickyLostExample()
    ensures DivDeviates(0x3f80_0000, 0x3fff_ffff)
    ensures ComputedQuotient(0x3f80_0000, 0x3fff_ffff) == 0x3f00_0000
    ensures ExactQuotient(0x3f80_0000, 0x3fff_ffff) == 0x3f00_0001
  {
    var a: uint32, b: uint32 := 0x3f80_0000, 0x3fff_ffff;
    hide Significand, EffExponent, Pow2, Mag, Grid, RoundNE, ComputedQuotient, QuotientLosesSticky, QuotientLosesCarry;
    hide ExactQuotient, DivDeviates, Divisible, IsFinite, IsZero, Pattern;
    FieldsOfExample();
    LosesItsSticky();
    MagOfFields(a);
    MagOfFields(b);
    QuotientIs(a, b);
    NearHalf(Mag(a) * Pow2(149), Mag(b), Pow2(126));
    StickyCostsOneUlp(a, b);
  }

  lemma QuotientIs(a: uint32, b: uint32)
    requires Divisible(a, b)
    ensures ExactQuotient(a, b) == RoundNE(Mag(a) * Pow2(149), Mag(b))
    ensures QuotientLosesCarry(a, b) <==> CarryLost(Mag(a) * Pow2(149), Mag(b))
    ensures QuotientLosesSticky(a, b) ==> DivDeviates(a, b)
  {
  }

  lemma FieldsOfExample()
    ensures var a: uint32, b: uint32 := 0x3f80_0000, 0x3fff_ffff;
      && Divisible(a, b) && IsFinite(a) && IsFinite(b) && Significand(a) == HIDDEN && EffExponent(a) == 127
      && Significand(b) == 0xff_ffff && EffExponent(b) == 127
  {
  }

  lemma LosesItsSticky()
    ensures QuotientLosesSticky(0x3f80_0000, 0x3fff_ffff)
  {
    var a: uint32, b: uint32 := 0x3f80_0000, 0x3fff_ffff;
    FieldsOfExample();
    PowersUpTo40();
    LeftShiftsAre(HIDDEN, 40);
    LeftJustifiedIs(HIDDEN);
    assert QuotientExponent(a, b) == 113;
    assert Numerator(a) == TOP && Divisor(b) == 0xff_ffff;
    ShiftsAre(0x80_0000_8000, 113, 13);
    assert StickyLost(TOP, 0xff_ffff, 113);
  }

  /** The quotient of 2^23 and 2^24 - 1, in units of 2^-149, lies above the midpoint behind 0.5. */
  lemma NearHalf(X: nat, D: nat, p: nat)
    requires X == HIDDEN * p * Pow2(149) && D == 0xff_ffff * p && p > 0
    ensures RoundNE(X, D) == 0x3f00_0001 && !CarryLost(X, D)
  {
    hide Pow2, Grid, RoundNE, CarryLost;
    var q, n := Pow2(125), 0x3f00_0000;
    GridAt(126, HIDDEN, 0xff_ffff);
    GridAt(126, HIDDEN + 1, 0xff_ffff);
    PowersUpTo40();
    Doubled(23);
    Pow2Sum(24, 125);
    var Y := HIDDEN * (2 * HIDDEN * q);
    MulAssoc(HIDDEN * p, Pow2(149), 0xff_ffff, Pow2(149) * 0xff_ffff);
    RatioOf(X, D, Y, p, Pow2(149));
    SameValueSameResult(X, D, Y, 0xff_ffff);
    AboveMidpoint(Y, q, n);
  }

  lemma AboveMidpoint(Y: nat, q: nat, n: nat)
    requires Y == HIDDEN * (2 * HIDDEN * q) && q > 0 && n == 0x3f00_0000
    requires Grid(n, 0xff_ffff) == HIDDEN * (q * 0xff_ffff) && Grid(n + 1, 0xff_ffff) == (HIDDEN + 1) * (q * 0xff_ffff)
    ensures RoundNE(Y, 0xff_ffff) == n + 1 && !CarryLost(Y, 0xff_ffff)
  {
    hide Grid, RoundNE;
    RoundBetween(Y, 0xff_ffff, n);
  }

  lemma RatioOf(X: nat, D: nat, Y: nat, p: nat, t: nat)
    requires X == HIDDEN * p * t && D == 0xff_ffff * p && Y == HIDDEN * t
    ensures X * 0xff_ffff == Y * D
  {
    assert HIDDEN * p * t * 0xff_ffff == HIDDEN * t * (0xff_ffff * p);
  }

  /** A NaN with another payload goes unnoticed, behind an infinity even by the addition. */
  lemma UnknownNaNExample()
    ensures UnknownNaNAfterInf(P_INF_F, 0x7fa0_0000)
    ensures MulDeviates(0x3f80_0000, 0x7fa0_0000) && DivDeviates(0x3f80_0000, 0x7fa0_0000)
  {
  }
}
