/**
 The binary32 format of IEEE 754-2008, section 3.4.

 Every finite float is an integer multiple of 2^-149, so magnitudes are counted in that
 unit and no real number is needed.  The low 31 bits of an encoding, read as one number,
 order the magnitudes, and the pattern of infinity continues the sequence at 2^128.
*/
module Binary32 {
  import opened Powers

  const HIDDEN := 0x80_0000       // 2^23, the weight of the hidden bit
  const SIGN_BIT := 0x8000_0000   // 2^31
  const INF := 0x7f80_0000

  const P_ZERO_F: uint32 := 0x0
  const N_ZERO_F: uint32 := 0x8000_0000
  const P_INF_F: uint32 := 0x7f80_0000
  const N_INF_F: uint32 := 0xff80_0000
  const P_NAN_F: uint32 := 0x7fc0_0000
  const N_NAN_F: uint32 := 0xffc0_0000

  // ---------- fields ----------

  function Sign(v: uint32): bit {
    v / SIGN_BIT
  }

  function Exponent(v: uint32): (e: nat)
    ensures e < 256
  {
    v / HIDDEN % 256
  }

  function Fraction(v: uint32): (f: nat)
    ensures f < HIDDEN
  {
    v % HIDDEN
  }

  /** All bits but the sign. */
  function Pattern(v: uint32): nat {
    v % SIGN_BIT
  }

  /** The fraction with its hidden bit. */
  function Significand(v: uint32): (s: nat)
    ensures s < 2 * HIDDEN
  {
    if Exponent(v) != 0 then Fraction(v) + HIDDEN else Fraction(v)
  }

  /** Exponent field 0 scales like exponent field 1. */
  function EffExponent(v: uint32): (e: nat)
    ensures 1 <= e <= 255
  {
    if Exponent(v) == 0 then 1 else Exponent(v)
  }

  function Pack(sign: bit, exponent: nat, fraction: nat): uint32
    requires exponent < 256 && fraction < HIDDEN
  {
    sign * SIGN_BIT + exponent * HIDDEN + fraction
  }

  function WithSign(sign: bit, n: nat): uint32
    requires n <= INF
  {
    sign * SIGN_BIT + n
  }

  predicate IsNaN(v: uint32) { Pattern(v) > INF }
  predicate IsInf(v: uint32) { Pattern(v) == INF }
  predicate IsZero(v: uint32) { Pattern(v) == 0 }
  predicate IsFinite(v: uint32) { Pattern(v) < INF }

  /** The classes of section 3.4 in terms of the fields. */
  lemma ClassesByFields(v: uint32)
    ensures Pattern(v) == Exponent(v) * HIDDEN + Fraction(v)
    ensures v == Sign(v) * SIGN_BIT + Pattern(v)
    ensures IsFinite(v) <==> Exponent(v) != 255
    ensures IsInf(v) <==> Exponent(v) == 255 && Fraction(v) == 0
    ensures IsNaN(v) <==> Exponent(v) == 255 && Fraction(v) != 0
    ensures IsZero(v) <==> Exponent(v) == 0 && Fraction(v) == 0
  {
  }

  /** The classes in terms of the named constants; they exclude each other. */
  lemma ClassesByConstants(v: uint32)
    ensures IsZero(v) <==> v == P_ZERO_F || v == N_ZERO_F
    ensures IsInf(v) <==> v == P_INF_F || v == N_INF_F
    ensures v == P_NAN_F || v == N_NAN_F ==> IsNaN(v)
    ensures IsNaN(v) <==> !IsInf(v) && !IsFinite(v)
    ensures IsInf(v) ==> !IsFinite(v)
    ensures IsZero(v) ==> IsFinite(v)
    ensures Exponent(v) == 255 <==> !IsFinite(v)
  {
  }

  lemma WithSignIsNumber(sign: bit, n: nat)
    requires n <= INF
    ensures !IsNaN(WithSign(sign, n))
    ensures Pattern(WithSign(sign, n)) == n && Sign(WithSign(sign, n)) == sign
  {
  }

  // ---------- magnitudes ----------

  /**
   D times the magnitude with bit pattern `n`, in units of 2^-149.  Exponent fields 0 and 1
   share the smallest scale; from there on each step of the exponent field doubles the value.
   */
  function Grid(n: nat, D: nat): nat
    requires n <= INF
  {
    if n < 2 * HIDDEN then n * D else 2 * Grid(n - HIDDEN, D)
  }

  function Mag(v: uint32): nat
    requires IsFinite(v)
  {
    Grid(Pattern(v), 1)
  }

  /** The value of a finite float, in units of 2^-149. */
  function Value(v: uint32): int
    requires IsFinite(v)
  {
    var m: int := Mag(v);
    if Sign(v) == 1 then -m else m
  }

  /** Significand `h` at effective exponent `e` is the float with pattern (e-1)*2^23 + h. */
  lemma {:induction false} GridAt(e: nat, h: nat, D: nat)
    requires 1 <= e && h <= 2 * HIDDEN && (e == 1 || HIDDEN <= h)
    requires (e - 1) * HIDDEN + h <= INF
    ensures Grid((e - 1) * HIDDEN + h, D) == h * (Pow2(e - 1) * D)
  {
    var n := (e - 1) * HIDDEN + h;
    if e == 1 {
      assert h == 2 * HIDDEN ==> Grid(n - HIDDEN, D) == HIDDEN * D;
    } else {
      GridAt(e - 1, h, D);
      assert n - HIDDEN == (e - 2) * HIDDEN + h;
      assert h * (2 * Pow2(e - 2) * D) == 2 * (h * (Pow2(e - 2) * D));
    }
  }

  /** The encoding rule of section 3.4: from the fields to the magnitude. */
  lemma MagOfFields(v: uint32)
    requires IsFinite(v)
    ensures Mag(v) == Significand(v) * Pow2(EffExponent(v) - 1)
  {
    ClassesByFields(v);
    assert Pattern(v) == (EffExponent(v) - 1) * HIDDEN + Significand(v);
    GridAt(EffExponent(v), Significand(v), 1);
  }

  /** The same rule bit by bit: sign in bit 31, exponent in bits 30 to 23, fraction in the others. */
  lemma ValueOfBits(v: uint32)
    requires v % 0x8000_0000 < 0x7f80_0000
    ensures IsFinite(v)
    ensures var e, f := v / 0x80_0000 % 0x100, v % 0x80_0000;
      var m := if e == 0 then f else (0x80_0000 + f) * Pow2(e - 1);
      Value(v) == if v >= 0x8000_0000 then -m else m
  {
    hide Pow2, Grid;
    assert Pow2(0) == 1 by { Pow2AtZero(); }
    MagOfFields(v);
  }

  lemma Pow2AtZero()
    ensures Pow2(0) == 1
  {
  }

  /** Infinity stands where 2^128 would be, which is 2^277 units. */
  lemma InfinityAt(D: nat)
    ensures Grid(0x7f80_0000, D) == Pow2(277) * D
  {
    hide Pow2, Grid;
    GridAt(254, 2 * HIDDEN, D);
    Pow2At24();
    Pow2Sum(24, 253);
    MulAssoc(Pow2(24), Pow2(253), D, Pow2(253) * D);
  }

  lemma Pow2At24()
    ensures Pow2(24) == 0x100_0000
  {
    assert Pow2(8) == 0x100;
    Pow2Sum(8, 8);
    Pow2Sum(16, 8);
  }

  /** The distance from the float with pattern `n` to the next one, times D. */
  function Gap(n: nat, D: nat): (g: nat)
    ensures g >= D
  {
    if n < 2 * HIDDEN then D else 2 * Gap(n - HIDDEN, D)
  }

  lemma {:induction false} GridStep(n: nat, D: nat)
    requires n < INF
    ensures Grid(n + 1, D) == Grid(n, D) + Gap(n, D)
  {
    if n + 1 < 2 * HIDDEN {
      assert (n + 1) * D == n * D + D;
    } else if n < 2 * HIDDEN {
      assert Grid(n + 1, D) == 2 * Grid(HIDDEN, D) == 2 * (HIDDEN * D);
    } else {
      GridStep(n - HIDDEN, D);
    }
  }

  lemma {:induction false} GridMono(m: nat, n: nat, D: nat)
    requires m <= n <= INF
    ensures Grid(m, D) <= Grid(n, D)
    ensures m < n && D > 0 ==> Grid(m, D) < Grid(n, D)
    decreases n
  {
    if m < n {
      GridMono(m, n - 1, D);
      GridStep(n - 1, D);
    }
  }

  /** Grids at two scales have the same shape. */
  lemma {:induction false} GridScale(n: nat, D: nat, c: nat)
    requires n <= INF
    ensures Grid(n, D * c) == Grid(n, D) * c
  {
    if n < 2 * HIDDEN {
      assert n * (D * c) == n * D * c;
    } else {
      GridScale(n - HIDDEN, D, c);
    }
  }
}
