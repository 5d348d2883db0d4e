/** What IEEE 754-2008 (sections 5.4.1, 6.1, 6.2 and 6.3) asks of the arithmetic operations. */
module Ieee754 {
  import opened Powers
  import opened Binary32
  import opened Rounding

  function Abs(x: int): nat {
    if x < 0 then -x else x
  }

  function SignOf(x: int): bit {
    if x < 0 then 1 else 0
  }

  function Negate(v: uint32): uint32 {
    if v >= SIGN_BIT then v - SIGN_BIT else v + SIGN_BIT
  }

  /** The exact sum, rounded; a zero sum is positive unless both operands are negative. */
  function RoundedSum(a: uint32, b: uint32): uint32
    requires IsFinite(a) && IsFinite(b)
  {
    var x := Value(a) + Value(b);
    if x == 0 then WithSign(if Sign(a) == Sign(b) == 1 then 1 else 0, 0)
    else WithSign(SignOf(x), RoundNE(Abs(x), 1))
  }

  predicate AddConforms(a: uint32, b: uint32, r: uint32) {
    if IsNaN(a) || IsNaN(b) || (IsInf(a) && IsInf(b) && Sign(a) != Sign(b)) then IsNaN(r)
    else if IsInf(a) then r == a
    else if IsInf(b) then r == b
    else r == RoundedSum(a, b)
  }

  predicate SubConforms(a: uint32, b: uint32, r: uint32) {
    AddConforms(a, Negate(b), r)
  }

  function XorSign(a: uint32, b: uint32): bit {
    if Sign(a) == Sign(b) then 0 else 1
  }

  /** Magnitudes are in units of 2^-149, so their product is in units of 2^-298. */
  function RoundedProduct(a: uint32, b: uint32): uint32
    requires IsFinite(a) && IsFinite(b)
  {
    WithSign(XorSign(a, b), RoundNE(Mag(a) * Mag(b), Pow2(149)))
  }

  predicate MulConforms(a: uint32, b: uint32, r: uint32) {
    if IsNaN(a) || IsNaN(b) || (IsInf(a) && IsZero(b)) || (IsZero(a) && IsInf(b)) then IsNaN(r)
    else if IsInf(a) || IsInf(b) then r == WithSign(XorSign(a, b), INF)
    else r == RoundedProduct(a, b)
  }

  function RoundedQuotient(a: uint32, b: uint32): uint32
    requires IsFinite(a) && IsFinite(b)
  {
    WithSign(XorSign(a, b), RoundNE(Mag(a) * Pow2(149), Mag(b)))
  }

  predicate DivConforms(a: uint32, b: uint32, r: uint32) {
    if IsNaN(a) || IsNaN(b) || (IsInf(a) && IsInf(b)) || (IsZero(a) && IsZero(b)) then IsNaN(r)
    else if IsInf(a) || IsZero(b) then r == WithSign(XorSign(a, b), INF)
    else if IsInf(b) then r == WithSign(XorSign(a, b), 0)
    else r == RoundedQuotient(a, b)
  }

  /** The two NaNs the source compares against. */
  predicate KnownNaN(v: uint32) {
    v == P_NAN_F || v == N_NAN_F
  }

  /** Every other NaN is taken for a number by the multiplication and the division. */
  predicate UnknownNaNOperand(a: uint32, b: uint32) {
    (IsNaN(a) || IsNaN(b)) && !KnownNaN(a) && !KnownNaN(b)
  }

  // ---------- special operands, bit by bit ----------

  predicate NotANumber(v: uint32) { v % 0x8000_0000 > 0x7f80_0000 }
  predicate Infinite(v: uint32) { v % 0x8000_0000 == 0x7f80_0000 }
  predicate Zero(v: uint32) { v % 0x8000_0000 == 0 }

  /** 0x7fc00000 and 0xffc00000, the NaNs the source compares against. */
  predicate Quiet(v: uint32) { v % 0x8000_0000 == 0x7fc0_0000 }

  /** Two of them give the positive one if either is. */
  function QuietOf(a: uint32, b: uint32): uint32 {
    if a == 0x7fc0_0000 || b == 0x7fc0_0000 then 0x7fc0_0000 else 0xffc0_0000
  }

  predicate OppositeSigns(a: uint32, b: uint32) { (a < 0x8000_0000) != (b < 0x8000_0000) }

  /** The bits of a + b where an operand is a NaN, an infinity or a zero. */
  predicate SpecialSum(a: uint32, b: uint32, r: uint32) {
    && (NotANumber(a) && !NotANumber(b) ==> r == a)
    && (NotANumber(b) && !NotANumber(a) ==> r == if Infinite(a) && !Quiet(b) then a else b)
    && (NotANumber(a) && NotANumber(b) ==> r == if Quiet(a) && Quiet(b) then QuietOf(a, b) else a)
    && (Infinite(a) && Infinite(b) ==> r == if OppositeSigns(a, b) then 0xffc0_0000 else a)
    && (Infinite(a) && !Infinite(b) && !NotANumber(b) ==> r == a)
    && (Infinite(b) && !Infinite(a) && !NotANumber(a) ==> r == b)
    && (Zero(a) && Zero(b) ==> r == if a == b == 0x8000_0000 then 0x8000_0000 else 0)
    && (Zero(a) && !Zero(b) ==> r == b) && (Zero(b) && !Zero(a) ==> r == a)
  }

  function Flipped(v: uint32): uint32 {
    if v < 0x8000_0000 then v + 0x8000_0000 else v - 0x8000_0000
  }

  /** The bits of a - b: like a + (-b), but the two known NaNs keep their sign. */
  predicate SpecialDifference(a: uint32, b: uint32, r: uint32) {
    && (NotANumber(a) && !NotANumber(b) ==> r == a)
    && (NotANumber(b) && !NotANumber(a) ==> r == if Quiet(b) then b else if Infinite(a) then a else Flipped(b))
    && (NotANumber(a) && NotANumber(b) ==>
        r == if Quiet(a) && Quiet(b) then QuietOf(a, b) else if Quiet(b) then b else a)
    && (Infinite(a) && Infinite(b) ==> r == if OppositeSigns(a, b) then a else 0xffc0_0000)
    && (Infinite(a) && !Infinite(b) && !NotANumber(b) ==> r == a)
    && (Infinite(b) && !Infinite(a) && !NotANumber(a) ==> r == Flipped(b))
    && (Zero(a) && Zero(b) ==> r == if a == 0x8000_0000 && b == 0 then 0x8000_0000 else 0)
    && (Zero(a) && !Zero(b) && !NotANumber(b) ==> r == Flipped(b)) && (Zero(b) && !Zero(a) ==> r == a)
  }

  /** A result of the given magnitude, negative exactly for operands of opposite signs. */
  predicate SignedBits(a: uint32, b: uint32, r: uint32, magnitude: nat) {
    r == magnitude + if OppositeSigns(a, b) then 0x8000_0000 else 0
  }

  /** The bits of a * b; a NaN other than the two known ones counts as a number. */
  predicate SpecialProduct(a: uint32, b: uint32, r: uint32) {
    && (Quiet(a) || Quiet(b) ==> r == QuietOf(a, b))
    && (!Quiet(a) && !Quiet(b) ==>
      && ((Zero(a) && Infinite(b)) || (Infinite(a) && Zero(b)) ==> r == 0xffc0_0000)
      && ((Zero(a) && !Infinite(b)) || (Zero(b) && !Infinite(a)) ==> SignedBits(a, b, r, 0))
      && ((Infinite(a) && !Zero(b)) || (Infinite(b) && !Zero(a)) ==> SignedBits(a, b, r, 0x7f80_0000))
      && (!Zero(a) && !Zero(b) && !Infinite(a) && !Infinite(b) ==>
        r <= 0x7f80_0000 + (if OppositeSigns(a, b) then 0x8000_0000 else 0)
        && (r >= 0x8000_0000 <==> OppositeSigns(a, b))))
  }

  /** The bits of a / b likewise. */
  predicate SpecialQuotient(a: uint32, b: uint32, r: uint32) {
    && (Quiet(a) || Quiet(b) ==> r == QuietOf(a, b))
    && (!Quiet(a) && !Quiet(b) ==>
      && ((Zero(a) && Zero(b)) || (Infinite(a) && Infinite(b)) ==> r == 0xffc0_0000)
      && ((Zero(a) && !Zero(b)) || (Infinite(b) && !Infinite(a)) ==> SignedBits(a, b, r, 0))
      && ((Infinite(a) && !Infinite(b)) || (Zero(b) && !Zero(a)) ==> SignedBits(a, b, r, 0x7f80_0000))
      && (!Zero(a) && !Zero(b) && !Infinite(a) && !Infinite(b) ==>
        r <= 0x7f80_0000 + (if OppositeSigns(a, b) then 0x8000_0000 else 0)
        && (r >= 0x8000_0000 <==> OppositeSigns(a, b))))
  }

  lemma BitClasses(v: uint32)
    ensures NotANumber(v) <==> IsNaN(v)
    ensures Infinite(v) <==> v == P_INF_F || v == N_INF_F
    ensures Zero(v) <==> v == P_ZERO_F || v == N_ZERO_F
    ensures Quiet(v) <==> v == P_NAN_F || v == N_NAN_F
    ensures Quiet(v) ==> NotANumber(v)
    ensures Exponent(v) == 0xff <==> NotANumber(v) || Infinite(v)
    ensures !(Infinite(v) && NotANumber(v)) && !(Zero(v) && Infinite(v)) && !(Zero(v) && NotANumber(v))
  {
  }

  lemma BitSigns(a: uint32, b: uint32)
    ensures XorSign(a, b) == if OppositeSigns(a, b) then 1 else 0
  {
  }

  // ---------- the tables of special operands ----------

  datatype CornerCaseRule = Rule(a: uint32, b: uint32, res: uint32)

  /** The index of the rule for (a, b), or the length of the table. */
  method FindCorner(table: seq<CornerCaseRule>, a: uint32, b: uint32) returns (i: nat)
    ensures i <= |table|
    ensures i < |table| ==> table[i].a == a && table[i].b == b
    ensures forall k | 0 <= k < i :: !(table[k].a == a && table[k].b == b)
  {
    i := 0;
    while i < |table|
      invariant i <= |table|
      invariant forall k | 0 <= k < i :: !(table[k].a == a && table[k].b == b)
    {
      if a == table[i].a && b == table[i].b {
        return;
      }
      i := i + 1;
    }
  }
}
