/** Laws of the rounded sum: what programs that add and subtract floats rely on. */
module FpuAddLaws {
  import opened Powers
  import opened Binary32
  import opened Rounding
  import opened Ieee754
  import opened FpuAdd

  /** The numeric order of encodings, infinities included: sign and magnitude read as a number. */
  function Order(v: uint32): int {
    Signed(Sign(v), Pattern(v))
  }

  lemma OrderOfRounded(x: int)
    ensures Order(WithSign(SignOf(x), RoundNE(Abs(x), 1))) == Signed(SignOf(x), RoundNE(Abs(x), 1))
  {
  }

  /** Finite operands may change places: any two conforming results, such as the routine's, are the same bits. */
  lemma AdditionCommutes(a: uint32, b: uint32, r: uint32, r': uint32)
    requires IsFinite(a) && IsFinite(b) && AddConforms(a, b, r) && AddConforms(b, a, r')
    ensures r == r'
  {
    ClassesByConstants(a);
    ClassesByConstants(b);
    SumCommutes(a, b);
  }

  /** Addition is monotone in its first argument, across zero and up to the infinities. */
  lemma SumMonotone(a: uint32, a': uint32, b: uint32)
    requires IsFinite(a) && IsFinite(a') && IsFinite(b) && Value(a) <= Value(a')
    ensures Order(RoundedSum(a, b)) <= Order(RoundedSum(a', b))
  {
    var x, x' := Value(a) + Value(b), Value(a') + Value(b);
    OrderOfSum(a, b);
    OrderOfSum(a', b);
    if x < 0 && x' < 0 {
      RoundMonoSame(Abs(x'), Abs(x), 1);
    } else if x >= 0 {
      RoundMonoSame(Abs(x), Abs(x'), 1);
    }
  }

  lemma OrderOfSum(a: uint32, b: uint32)
    requires IsFinite(a) && IsFinite(b)
    ensures var x := Value(a) + Value(b);
      Order(RoundedSum(a, b)) == Signed(SignOf(x), RoundNE(Abs(x), 1))
  {
    RoundExact(0);
    OrderOfRounded(Value(a) + Value(b));
  }

  lemma NegateValue(b: uint32)
    requires IsFinite(b)
    ensures IsFinite(Negate(b)) && Value(Negate(b)) == -Value(b)
  {
    ClassesByFields(b);
    assert Pattern(Negate(b)) == Pattern(b);
  }

  /** Gradual underflow: a difference of finite floats is zero only when they are equal, and is then +0. */
  lemma DifferenceIsZero(a: uint32, b: uint32)
    requires IsFinite(a) && IsFinite(b) && !(IsZero(a) && IsZero(b))
    ensures Value(a) == Value(b) ==> RoundedSum(a, Negate(b)) == P_ZERO_F
    ensures Value(a) != Value(b) ==> !IsZero(RoundedSum(a, Negate(b)))
  {
    NegateValue(b);
    var x := Value(a) - Value(b);
    OrderOfSum(a, Negate(b));
    if x != 0 {
      RoundExact(1);
      RoundMonoSame(1, Abs(x), 1);
    } else if !IsZero(a) {
      NonzeroValue(a);
      NegateValue(a);
    } else {
      NonzeroValue(b);
    }
  }

  /** Significands of at most 24 bits are representable at every exponent. */
  lemma {:induction false} Representable(m: nat, e: nat) returns (n: nat)
    requires 1 <= e <= 254 && m <= 2 * HIDDEN
    ensures n <= INF && Grid(n, 1) == m * Pow2(e - 1)
    ensures n < INF || m == 2 * HIDDEN
    decreases e
  {
    if e == 1 || m >= HIDDEN {
      n := (e - 1) * HIDDEN + m;
      GridAt(e, m, 1);
    } else {
      n := Representable(2 * m, e - 1);
      MulAssoc(m, 2, Pow2(e - 2), Pow2(e - 1));
    }
  }

  /** Sterbenz: between half and twice each other, positive floats subtract without error. */
  lemma NearbyDifferenceIsExact(a: uint32, b: uint32)
    requires IsFinite(a) && IsFinite(b) && 0 < Value(b) <= Value(a) <= 2 * Value(b)
    ensures IsFinite(RoundedSum(a, Negate(b)))
    ensures Value(RoundedSum(a, Negate(b))) == Value(a) - Value(b)
  {
    var m := DifferenceInUnits(a, b);
    ClassesByFields(b);
    var n := Representable(m, EffExponent(b));
    NegateValue(b);
    hide EffExponent, Significand, Grid;
    RoundExact(n);
    ExactResult(a, Negate(b), n);
  }

  lemma ExactResult(a: uint32, c: uint32, n: nat)
    requires IsFinite(a) && IsFinite(c) && n < INF && Value(a) + Value(c) == Grid(n, 1)
    ensures IsFinite(RoundedSum(a, c)) && Value(RoundedSum(a, c)) == Grid(n, 1)
  {
    hide Value, Grid, RoundNE;
    RoundExact(n);
    ValueOfPattern(0, n);
    ValueOfPattern(0, 0);
    ValueOfPattern(1, 0);
    assert Grid(0, 1) == 0 by { GridAt(1, 0, 1); }
  }

  lemma ValueOfPattern(sign: bit, n: nat)
    requires n < INF
    ensures IsFinite(WithSign(sign, n)) && Value(WithSign(sign, n)) == Signed(sign, Grid(n, 1))
  {
    WithSignIsNumber(sign, n);
  }

  /** The difference counted in units of the smaller operand. */
  lemma DifferenceInUnits(a: uint32, b: uint32) returns (m: nat)
    requires IsFinite(a) && IsFinite(b) && 0 < Value(b) <= Value(a) <= 2 * Value(b)
    ensures Value(a) - Value(b) == m * Pow2(EffExponent(b) - 1) && m <= Significand(b) < 2 * HIDDEN
  {
    assert Value(a) == Mag(a) && Value(b) == Mag(b) by {
      NonnegativeValue(a);
      NonnegativeValue(b);
    }
    hide EffExponent, IsFinite, Pow2, Significand, Value, Mag;
    ExponentsOrdered(a, b);
    MagOfFields(a);
    MagOfFields(b);
    m := UnitsApart(Significand(a), EffExponent(a), Significand(b), EffExponent(b));
  }

  lemma UnitsApart(sa: nat, ea: nat, sb: nat, eb: nat) returns (m: nat)
    requires 1 <= eb <= ea
    requires var x, y := sa * Pow2(ea - 1), sb * Pow2(eb - 1); y <= x <= 2 * y
    ensures sa * Pow2(ea - 1) - sb * Pow2(eb - 1) == m * Pow2(eb - 1) && m <= sb
  {
    assert ea - eb + (eb - 1) == ea - 1;
    Pow2Sum(ea - eb, eb - 1);
    MulAssoc(sa, Pow2(ea - eb), Pow2(eb - 1), Pow2(ea - 1));
    m := UnitsBetween(sa * Pow2(ea - eb), sb, Pow2(eb - 1));
  }

  lemma NonnegativeValue(v: uint32)
    requires IsFinite(v) && Value(v) > 0
    ensures Value(v) == Mag(v)
  {
  }

  lemma UnitsBetween(A: nat, B: nat, P: nat) returns (m: nat)
    requires P > 0 && B * P <= A * P <= 2 * (B * P)
    ensures A * P - B * P == m * P && m <= B
  {
    ScaleOrder(A, B, P);
    ScaleOrder(2 * B, A, P);
    MulAssoc(2, B, P, B * P);
    MulAdd(A, B, P);
    m := A - B;
  }

  lemma ExponentsOrdered(a: uint32, b: uint32)
    requires IsFinite(a) && IsFinite(b) && 0 < Value(b) <= Value(a)
    ensures EffExponent(b) <= EffExponent(a)
  {
    if Pattern(a) < Pattern(b) {
      GridMono(Pattern(a), Pattern(b), 1);
    }
    ClassesByFields(a);
    ClassesByFields(b);
  }
}
