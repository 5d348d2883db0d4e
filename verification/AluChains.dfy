/** Multi-limb arithmetic by carry chains, and what the jump conditions decide afterwards. */
module AluChains {
  import opened Powers
  import opened AluSpec
  import opened Alu

  // ---------- the conditions ----------

  predicate ConditionE(f: Flags) { f.ZF }
  predicate ConditionNE(f: Flags) { !f.ZF }
  predicate ConditionA(f: Flags) { !f.CF && !f.ZF }
  predicate ConditionAE(f: Flags) { !f.CF }
  predicate ConditionB(f: Flags) { f.CF }
  predicate ConditionBE(f: Flags) { f.CF || f.ZF }
  predicate ConditionG(f: Flags) { !f.ZF && f.SF == f.OF }
  predicate ConditionGE(f: Flags) { f.SF == f.OF }
  predicate ConditionL(f: Flags) { f.SF != f.OF }
  predicate ConditionLE(f: Flags) { f.ZF || f.SF != f.OF }

  /** After comparing two operands every condition means what its name says. */
  lemma ConditionsCompare(dest: uint32, src: uint32, w: Width)
    ensures var f, d, s := Subtracted(dest, src, false, w).flags, Low(dest, w), Low(src, w);
      && (ConditionE(f) <==> d == s) && (ConditionNE(f) <==> d != s)
      && (ConditionA(f) <==> d > s) && (ConditionAE(f) <==> d >= s)
      && (ConditionB(f) <==> d < s) && (ConditionBE(f) <==> d <= s)
      && (ConditionG(f) <==> Signed(d, w) > Signed(s, w)) && (ConditionGE(f) <==> Signed(d, w) >= Signed(s, w))
      && (ConditionL(f) <==> Signed(d, w) < Signed(s, w)) && (ConditionLE(f) <==> Signed(d, w) <= Signed(s, w))
  {
    CompareUnsigned(dest, src, w);
    CompareSigned(dest, src, w);
    hide Subtracted, Signed, Low;
  }

  lemma CompareUnsigned(dest: uint32, src: uint32, w: Width)
    ensures var f, d, s := Subtracted(dest, src, false, w).flags, Low(dest, w), Low(src, w);
      (f.CF <==> d < s) && (f.ZF <==> d == s)
  {
    hide Base, Half, Low, EvenParity, Signed;
    var diff: int := Low(dest, w) - Low(src, w);
    WrapSum(diff, w);
  }

  lemma CompareSigned(dest: uint32, src: uint32, w: Width)
    ensures var f, d, s := Subtracted(dest, src, false, w).flags, Low(dest, w), Low(src, w);
      (f.SF != f.OF <==> Signed(d, w) < Signed(s, w)) && (d == s <==> Signed(d, w) == Signed(s, w))
  {
    hide Base, Half, Low, EvenParity;
    var diff: int := Low(dest, w) - Low(src, w);
    WrapSum(diff, w);
  }

  // ---------- numbers of several limbs, least significant first ----------

  predicate Limbs(a: seq<nat>, w: Width) {
    |a| > 0 && forall i | 0 <= i < |a| :: a[i] < Base(w)
  }

  function Number(a: seq<nat>, B: nat): nat {
    if a == [] then 0 else a[0] + B * Number(a[1..], B)
  }

  function PowerOf(n: nat, B: nat): (p: nat)
    requires B > 0
    ensures p > 0
  {
    if n == 0 then 1 else B * PowerOf(n - 1, B)
  }

  /** Two's complement reading of the whole number. */
  function SignedNumber(a: seq<nat>, B: nat): int
    requires B > 0
  {
    if 2 * Number(a, B) < PowerOf(|a|, B) then Number(a, B) else Number(a, B) - PowerOf(|a|, B)
  }

  // ---------- the chains ----------

  /** `alu_add` on the lowest limbs, then `alu_adc` upwards: the limbs and the last flags. */
  function AddChain(a: seq<nat>, b: seq<nat>, c: bool, w: Width): (seq<nat>, Flags)
    requires Limbs(a, w) && Limbs(b, w) && |a| == |b|
  {
    var o := Added(a[0], b[0], c, w);
    if |a| == 1 then ([o.result], o.flags)
    else
      var (rest, f) := AddChain(a[1..], b[1..], o.flags.CF, w);
      ([o.result] + rest, f)
  }

  /** `alu_sub` on the lowest limbs, then `alu_sbb` upwards. */
  function SubChain(a: seq<nat>, b: seq<nat>, c: bool, w: Width): (seq<nat>, Flags)
    requires Limbs(a, w) && Limbs(b, w) && |a| == |b|
  {
    var o := Subtracted(a[0], b[0], c, w);
    if |a| == 1 then ([o.result], o.flags)
    else
      var (rest, f) := SubChain(a[1..], b[1..], o.flags.CF, w);
      ([o.result] + rest, f)
  }

  // ---------- one limb ----------

  lemma LimbIsLow(x: nat, w: Width)
    requires x < Base(w)
    ensures Low(x, w) == x
  {
    if w == 8 {
    } else if w == 16 {
    }
  }

  lemma LimbSum(x: nat, y: nat, c: bool, w: Width)
    requires x < Base(w) && y < Base(w)
    ensures var o := Added(x, y, c, w);
      && o.result < Base(w)
      && o.result + (if o.flags.CF then Base(w) else 0) == x + y + Carry(c)
      && (o.flags.SF <==> Signed(o.result, w) < 0)
      && (o.flags.OF <==> !InRange(Signed(x, w) + Signed(y, w) + Carry(c), w))
      && (!o.flags.OF ==> Signed(o.result, w) == Signed(x, w) + Signed(y, w) + Carry(c))
  {
    LimbIsLow(x, w);
    LimbIsLow(y, w);
    WrapSum(x + y + Carry(c), w);
    hide Base, Half, Low, EvenParity;
  }

  lemma LimbDifference(x: nat, y: nat, c: bool, w: Width)
    requires x < Base(w) && y < Base(w)
    ensures var o := Subtracted(x, y, c, w);
      && o.result < Base(w)
      && o.result - (if o.flags.CF then Base(w) else 0) == x - y - Carry(c)
      && (o.flags.SF <==> Signed(o.result, w) < 0)
      && (o.flags.OF <==> !InRange(Signed(x, w) - Signed(y, w) - Carry(c), w))
      && (!o.flags.OF ==> Signed(o.result, w) == Signed(x, w) - Signed(y, w) - Carry(c))
      && (o.flags.SF != o.flags.OF <==> Signed(x, w) - Signed(y, w) - Carry(c) < 0)
  {
    hide Base, Half, Low, EvenParity, InRange;
    LimbIsLow(x, w);
    LimbIsLow(y, w);
    var diff: int := (x as int) - y - Carry(c);
    WrapSum(diff, w);
    DifferenceIsExact(x, y, c, Low(diff, w), w);
  }

  /** Without overflow the wrapped difference is the difference; sign and overflow together give its sign. */
  lemma DifferenceIsExact(x: nat, y: nat, c: bool, r: nat, w: Width)
    requires x < Base(w) && y < Base(w)
    requires var d := x - y - Carry(c); r == if d < 0 then d + Base(w) else d
    ensures var S := Signed(x, w) - Signed(y, w) - Carry(c);
      && (InRange(S, w) ==> Signed(r, w) == S)
      && ((Signed(r, w) < 0) != !InRange(S, w) <==> S < 0)
  {
    hide Base, Half;
  }

  lemma SplitLimbs(a: seq<nat>, w: Width)
    requires Limbs(a, w)
    ensures a[0] < Base(w)
    ensures if |a| == 1 then a == [a[0]] else Limbs(a[1..], w) && a == [a[0]] + a[1..]
  {
  }

  // ---------- reading numbers limb by limb ----------

  lemma SingleLimb(x: nat, w: Width)
    requires x < Base(w)
    ensures var B := Base(w);
      Number([x], B) == x && PowerOf(1, B) == B && SignedNumber([x], B) == Signed(x, w)
  {
    assert [x][1..] == [];
    assert Number([], Base(w)) == 0 && PowerOf(0, Base(w)) == 1;
    hide Base;
  }

  lemma {:induction false} SpanEven(n: nat, B: nat)
    requires B > 0 && B % 2 == 0 && n > 0
    ensures PowerOf(n, B) % 2 == 0
  {
    MulAssoc(2, B / 2, PowerOf(n - 1, B), B / 2 * PowerOf(n - 1, B));
  }

  /** Prepending a limb scales the signed value like the unsigned one. */
  lemma PrependLimb(x: nat, z: seq<nat>, B: nat)
    requires x < B && B % 2 == 0 && |z| > 0
    ensures Number([x] + z, B) == x + B * Number(z, B)
    ensures PowerOf(|z| + 1, B) == B * PowerOf(|z|, B)
    ensures SignedNumber([x] + z, B) == x + B * SignedNumber(z, B)
  {
    SpanEven(|z|, B);
    NumberUnfolds(x, z, B);
    SpanUnfolds(|z|, B);
    hide Number, PowerOf;
    PrependSigned(x, B, Number(z, B), PowerOf(|z|, B));
  }

  lemma PrependSigned(x: nat, B: nat, N: nat, P: nat)
    requires x < B && P % 2 == 0
    ensures 2 * (x + B * N) < B * P <==> 2 * N < P
    ensures x + B * N - B * P == x + B * (N - P)
  {
    StepRange(x, B, N, P);
  }

  lemma NumberUnfolds(x: nat, z: seq<nat>, B: nat)
    ensures Number([x] + z, B) == x + B * Number(z, B)
  {
    assert ([x] + z)[1..] == z;
  }

  lemma SpanUnfolds(n: nat, B: nat)
    requires B > 0
    ensures PowerOf(n + 1, B) == B * PowerOf(n, B)
  {
  }

  /** A digit below B does not move a multiple of B across an even multiple. */
  lemma StepRange(x: nat, B: nat, S: int, P: nat)
    requires x < B && P % 2 == 0
    ensures 2 * (x + B * S) < B * P <==> 2 * S < P
    ensures -(B * P) <= 2 * (x + B * S) <==> -(P as int) <= 2 * S
    ensures x + B * S < 0 <==> S < 0
  {
    var k := P / 2;
    MulAssoc(B, 2, k, P);
    MulAssoc(2, B, k, B * k);
    if S < k { MulLe(S + 1, k, B); MulAdd(S, 1, B); } else { MulLe(k, S, B); }
    if S < -k { MulLe(S + 1, -k, B); MulAdd(S, 1, B); MulAdd(0, k, B); } else { MulLe(-k, S, B); MulAdd(0, k, B); }
    if S < 0 { MulLe(S + 1, 0, B); MulAdd(S, 1, B); } else { MulLe(0, S, B); }
  }

  predicate Representable(S: int, n: nat, B: nat)
    requires B > 0
  {
    -(PowerOf(n, B) as int) <= 2 * S < PowerOf(n, B)
  }

  lemma StepSigned(r: nat, B: nat, S: int, z: int, n: nat)
    requires r < B && B % 2 == 0 && n > 0
    ensures Representable(r + B * S, n + 1, B) <==> Representable(S, n, B)
    ensures r + B * S < 0 <==> S < 0
    ensures r + B * z < 0 <==> z < 0
    ensures z == S ==> r + B * z == r + B * S
  {
    hide PowerOf;
    SpanEven(n, B);
    SpanUnfolds(n, B);
    StepRange(r, B, S, PowerOf(n, B));
    StepRange(r, B, z, PowerOf(n, B));
  }

  // ---------- the theorems ----------

  lemma StepSum(B: nat, x: int, y: int, c: int, r: int, c0: bool, z: int, q: int, a: int, b: int)
    requires r + (if c0 then B else 0) == x + y + c && z + q == a + b + Carry(c0)
    ensures r + B * z + B * q == x + B * a + (y + B * b) + c
  {
    MulEq(z + q, a + b + Carry(c0), B);
  }

  lemma StepDifference(B: nat, x: int, y: int, c: int, r: int, c0: bool, z: int, q: int, a: int, b: int)
    requires r - (if c0 then B else 0) == x - y - c && z - q == a - b - Carry(c0)
    ensures r + B * z - B * q == x + B * a - (y + B * b) - c
  {
    MulEq(z - q, a - b - Carry(c0), B);
  }

  /** The chain is addition modulo 2^(w*n), the last carry is the carry out. */
  lemma {:induction false} AddChainIsSum(a: seq<nat>, b: seq<nat>, c: bool, w: Width)
    requires Limbs(a, w) && Limbs(b, w) && |a| == |b|
    ensures var (z, f) := AddChain(a, b, c, w);
      && |z| == |a| && Limbs(z, w)
      && Number(z, Base(w)) + (if f.CF then PowerOf(|a|, Base(w)) else 0)
         == Number(a, Base(w)) + Number(b, Base(w)) + Carry(c)
  {
    hide Base, Half, Added, Number, PowerOf;
    SplitLimbs(a, w);
    SplitLimbs(b, w);
    var B := Base(w);
    LimbSum(a[0], b[0], c, w);
    var o := Added(a[0], b[0], c, w);
    if |a| == 1 {
      SingleLimb(a[0], w);
      SingleLimb(b[0], w);
      SingleLimb(o.result, w);
    } else {
      AddChainIsSum(a[1..], b[1..], o.flags.CF, w);
      var (rest, f) := AddChain(a[1..], b[1..], o.flags.CF, w);
      NumberUnfolds(a[0], a[1..], B);
      NumberUnfolds(b[0], b[1..], B);
      NumberUnfolds(o.result, rest, B);
      SpanUnfolds(|rest|, B);
      StepSum(B, a[0], b[0], Carry(c), o.result, o.flags.CF,
              Number(rest, B), if f.CF then PowerOf(|rest|, B) else 0, Number(a[1..], B), Number(b[1..], B));
    }
  }

  /** The last overflow flag is the signed overflow of the whole sum; without it the sum is exact. */
  lemma {:induction false} AddChainIsSignedSum(a: seq<nat>, b: seq<nat>, c: bool, w: Width)
    requires Limbs(a, w) && Limbs(b, w) && |a| == |b|
    ensures var (z, f), S := AddChain(a, b, c, w),
                SignedNumber(a, Base(w)) + SignedNumber(b, Base(w)) + Carry(c);
      && |z| == |a|
      && (f.OF <==> !Representable(S, |a|, Base(w)))
      && (f.SF <==> SignedNumber(z, Base(w)) < 0)
      && (!f.OF ==> SignedNumber(z, Base(w)) == S)
  {
    hide Base, Half, Added, Number, SignedNumber, Signed;
    SplitLimbs(a, w);
    SplitLimbs(b, w);
    var B := Base(w);
    LimbSum(a[0], b[0], c, w);
    var o := Added(a[0], b[0], c, w);
    if |a| == 1 {
      SingleLimb(a[0], w);
      SingleLimb(b[0], w);
      SingleLimb(o.result, w);
    } else {
      hide Representable;
      AddChainIsSignedSum(a[1..], b[1..], o.flags.CF, w);
      var (rest, f) := AddChain(a[1..], b[1..], o.flags.CF, w);
      PrependLimb(a[0], a[1..], B);
      PrependLimb(b[0], b[1..], B);
      PrependLimb(o.result, rest, B);
      var x, y := SignedNumber(a[1..], B), SignedNumber(b[1..], B);
      var S := x + y + Carry(o.flags.CF);
      StepSum(B, a[0], b[0], Carry(c), o.result, o.flags.CF, S, 0, x, y);
      StepSigned(o.result, B, S, SignedNumber(rest, B), |rest|);
    }
  }

  /** The chain is subtraction modulo 2^(w*n), the last borrow decides the unsigned order. */
  lemma {:induction false} SubChainIsDifference(a: seq<nat>, b: seq<nat>, c: bool, w: Width)
    requires Limbs(a, w) && Limbs(b, w) && |a| == |b|
    ensures var (z, f) := SubChain(a, b, c, w);
      && |z| == |a| && Limbs(z, w)
      && Number(z, Base(w)) - (if f.CF then PowerOf(|a|, Base(w)) else 0)
         == Number(a, Base(w)) - Number(b, Base(w)) - Carry(c)
  {
    hide Base, Half, Subtracted, Number, PowerOf;
    SplitLimbs(a, w);
    SplitLimbs(b, w);
    var B := Base(w);
    LimbDifference(a[0], b[0], c, w);
    var o := Subtracted(a[0], b[0], c, w);
    if |a| == 1 {
      SingleLimb(a[0], w);
      SingleLimb(b[0], w);
      SingleLimb(o.result, w);
    } else {
      SubChainIsDifference(a[1..], b[1..], o.flags.CF, w);
      var (rest, f) := SubChain(a[1..], b[1..], o.flags.CF, w);
      NumberUnfolds(a[0], a[1..], B);
      NumberUnfolds(b[0], b[1..], B);
      NumberUnfolds(o.result, rest, B);
      SpanUnfolds(|rest|, B);
      StepDifference(B, a[0], b[0], Carry(c), o.result, o.flags.CF,
                     Number(rest, B), if f.CF then PowerOf(|rest|, B) else 0, Number(a[1..], B), Number(b[1..], B));
    }
  }

  /** The last flags decide the sign, the overflow and the signed order of the whole numbers. */
  lemma {:induction false} SubChainIsSignedDifference(a: seq<nat>, b: seq<nat>, c: bool, w: Width)
    requires Limbs(a, w) && Limbs(b, w) && |a| == |b|
    ensures var (z, f), S := SubChain(a, b, c, w),
                SignedNumber(a, Base(w)) - SignedNumber(b, Base(w)) - Carry(c);
      && |z| == |a|
      && (f.OF <==> !Representable(S, |a|, Base(w)))
      && (f.SF <==> SignedNumber(z, Base(w)) < 0)
      && (!f.OF ==> SignedNumber(z, Base(w)) == S)
      && (f.SF != f.OF <==> S < 0)
  {
    hide Base, Half, Subtracted, Number, SignedNumber, Signed;
    SplitLimbs(a, w);
    SplitLimbs(b, w);
    var B := Base(w);
    LimbDifference(a[0], b[0], c, w);
    var o := Subtracted(a[0], b[0], c, w);
    if |a| == 1 {
      SingleLimb(a[0], w);
      SingleLimb(b[0], w);
      SingleLimb(o.result, w);
    } else {
      hide Representable;
      SubChainIsSignedDifference(a[1..], b[1..], o.flags.CF, w);
      var (rest, f) := SubChain(a[1..], b[1..], o.flags.CF, w);
      PrependLimb(a[0], a[1..], B);
      PrependLimb(b[0], b[1..], B);
      PrependLimb(o.result, rest, B);
      var x, y := SignedNumber(a[1..], B), SignedNumber(b[1..], B);
      var S := x - y - Carry(o.flags.CF);
      StepDifference(B, a[0], b[0], Carry(c), o.result, o.flags.CF, S, 0, x, y);
      StepSigned(o.result, B, S, SignedNumber(rest, B), |rest|);
    }
  }

  /** Numbers of n limbs are below 2^(w*n). */
  lemma {:induction false} NumberBelowSpan(a: seq<nat>, w: Width)
    requires Limbs(a, w)
    ensures Number(a, Base(w)) < PowerOf(|a|, Base(w))
  {
    hide Base, Number, PowerOf;
    var B := Base(w);
    assert a == [a[0]] + a[1..];
    if |a| == 1 {
      assert a == [a[0]];
      SingleLimb(a[0], w);
    } else {
      NumberBelowSpan(a[1..], w);
      NumberUnfolds(a[0], a[1..], B);
      SpanUnfolds(|a[1..]|, B);
      MulLe(Number(a[1..], B) + 1, PowerOf(|a[1..]|, B), B);
      MulAdd(Number(a[1..], B), 1, B);
    }
  }

  /** A multi-limb comparison: which conditions the last `sbb` leaves meaningful, and what they mean. */
  lemma SubChainCompares(a: seq<nat>, b: seq<nat>, w: Width)
    requires Limbs(a, w) && Limbs(b, w) && |a| == |b|
    ensures var f, B := SubChain(a, b, false, w).1, Base(w);
      && (ConditionB(f) <==> Number(a, B) < Number(b, B))
      && (ConditionAE(f) <==> Number(a, B) >= Number(b, B))
      && (ConditionL(f) <==> SignedNumber(a, B) < SignedNumber(b, B))
      && (ConditionGE(f) <==> SignedNumber(a, B) >= SignedNumber(b, B))
  {
    SubChainIsDifference(a, b, false, w);
    SubChainIsSignedDifference(a, b, false, w);
    NumberBelowSpan(SubChain(a, b, false, w).0, w);
    hide Number, PowerOf, SignedNumber, Base;
  }

  /** The zero flag after a chain reports the result's own top limb. */
  lemma {:induction false} ZeroFlagIsTopLimb(a: seq<nat>, b: seq<nat>, c: bool, w: Width)
    requires Limbs(a, w) && Limbs(b, w) && |a| == |b|
    ensures var (z, f) := SubChain(a, b, c, w); |z| == |a| && (ConditionE(f) <==> z[|z| - 1] == 0)
  {
    hide Base, Half, EvenParity, Signed, InRange, Low;
    if |a| > 1 {
      ZeroFlagIsTopLimb(a[1..], b[1..], Subtracted(a[0], b[0], c, w).flags.CF, w);
    }
  }

  lemma {:induction false} TopLimbZero(z: seq<nat>, w: Width)
    requires Limbs(z, w)
    ensures z[|z| - 1] == 0 <==> Number(z, Base(w)) < PowerOf(|z| - 1, Base(w))
  {
    hide Base, Number, PowerOf;
    var B := Base(w);
    SplitLimbs(z, w);
    if |z| == 1 {
      SingleLimb(z[0], w);
      assert PowerOf(0, B) == 1 by { EmptySpan(B); }
    } else {
      TopLimbZero(z[1..], w);
      NumberUnfolds(z[0], z[1..], B);
      SpanUnfolds(|z| - 2, B);
      BelowMultiple(z[0], Number(z[1..], B), PowerOf(|z| - 2, B), B);
    }
  }

  lemma EmptySpan(B: nat)
    requires B > 0
    ensures PowerOf(0, B) == 1
  {
  }

  lemma BelowMultiple(x: nat, N: nat, P: nat, B: nat)
    requires x < B
    ensures x + B * N < B * P <==> N < P
  {
    if N < P {
      MulLe(N + 1, P, B);
      MulAdd(N, 1, B);
    } else {
      MulLe(P, N, B);
    }
  }

  /** The difference of two numbers of `n` limbs, wrapped. */
  function WrappedDifference(a: seq<nat>, b: seq<nat>, w: Width): int {
    var N, M := Number(a, Base(w)), Number(b, Base(w));
    if N >= M then N - M else N - M + PowerOf(|a|, Base(w))
  }

  /**
   * After a multi-limb comparison `e` holds when the wrapped difference fits below the top limb; it
   * decides equality exactly for equal numbers and for those whose difference reaches the top limb.
   */
  lemma ZeroFlagAfterChain(a: seq<nat>, b: seq<nat>, w: Width)
    requires Limbs(a, w) && Limbs(b, w) && |a| == |b|
    ensures var f, d, low := SubChain(a, b, false, w).1, WrappedDifference(a, b, w), PowerOf(|a| - 1, Base(w));
      var equal := Number(a, Base(w)) == Number(b, Base(w));
      && (ConditionE(f) <==> d < low)
      && ((ConditionE(f) <==> equal) <==> equal || d >= low)
  {
    hide Base, Number, PowerOf, SubChain;
    var (z, f) := SubChain(a, b, false, w);
    ZeroFlagIsTopLimb(a, b, false, w);
    SubChainIsDifference(a, b, false, w);
    TopLimbZero(z, w);
    NumberBelowSpan(z, w);
    NumberBelowSpan(a, w);
    NumberBelowSpan(b, w);
  }

  /** What the limbs of a sum hold: the sum wrapped at B^n. */
  function WrappedSum(a: seq<nat>, b: seq<nat>, c: bool, w: Width): nat
    requires |a| == |b|
  {
    (Number(a, Base(w)) + Number(b, Base(w)) + Carry(c)) % PowerOf(|a|, Base(w))
  }

  /** After an addition of several limbs `e` holds exactly if the wrapped sum has no top limb. */
  lemma ZeroFlagAfterSum(a: seq<nat>, b: seq<nat>, c: bool, w: Width)
    requires Limbs(a, w) && Limbs(b, w) && |a| == |b|
    ensures ConditionE(AddChain(a, b, c, w).1) <==> WrappedSum(a, b, c, w) < PowerOf(|a| - 1, Base(w))
  {
    hide Base, Number, PowerOf, AddChain;
    var (z, f) := AddChain(a, b, c, w);
    SumFlagIsTopLimb(a, b, c, w);
    AddChainIsSum(a, b, c, w);
    TopLimbZero(z, w);
    NumberBelowSpan(z, w);
    var P, x := PowerOf(|a|, Base(w)), Number(a, Base(w)) + Number(b, Base(w)) + Carry(c);
    DivUnique(x, P, if f.CF then 1 else 0, Number(z, Base(w)));
  }

  lemma {:induction false} SumFlagIsTopLimb(a: seq<nat>, b: seq<nat>, c: bool, w: Width)
    requires Limbs(a, w) && Limbs(b, w) && |a| == |b|
    ensures var (z, f) := AddChain(a, b, c, w); |z| == |a| && (ConditionE(f) <==> z[|z| - 1] == 0)
  {
    hide Base;
    if |a| > 1 {
      SumFlagIsTopLimb(a[1..], b[1..], Added(a[0], b[0], c, w).flags.CF, w);
    }
  }

  /** Two limbs that differ in the lower one only: 1 above 0 passes for equal, 0 below 1 does not. */
  lemma LowLimbMissed(w: Width)
    ensures ConditionE(SubChain([1, 1], [0, 1], false, w).1) && Number([1, 1], Base(w)) != Number([0, 1], Base(w))
    ensures !ConditionE(SubChain([0, 1], [1, 1], false, w).1)
  {
    hide SubChain, Base, Number, PowerOf;
    var B := Base(w);
    ZeroFlagAfterChain([1, 1], [0, 1], w);
    ZeroFlagAfterChain([0, 1], [1, 1], w);
    TwoLimbs(1, 1, w);
    TwoLimbs(0, 1, w);
    MulLe(2, B, B);
  }

  lemma TwoLimbs(x: nat, y: nat, w: Width)
    requires x < Base(w) && y < Base(w)
    ensures Number([x, y], Base(w)) == x + Base(w) * y
    ensures PowerOf(1, Base(w)) == Base(w) && PowerOf(2, Base(w)) == Base(w) * Base(w)
  {
    hide Base, Number, PowerOf;
    SingleLimb(y, w);
    NumberUnfolds(x, [y], Base(w));
    SpanUnfolds(1, Base(w));
    assert [x] + [y] == [x, y];
  }

  // ---------- the chains as the processor runs them ----------

  /** The rest of a chain from limb `i` on, behind the limbs already computed. */
  predicate AddsUp(a: seq<nat>, b: seq<nat>, i: nat, z: seq<nat>, f: Flags, w: Width)
    requires Limbs(a, w) && Limbs(b, w) && |a| == |b|
  {
    && 0 < i <= |a|
    && AddChain(a, b, false, w) ==
       if i == |a| then (z, f)
       else var (rest, g) := AddChain(a[i..], b[i..], f.CF, w); (z + rest, g)
  }

  predicate SubtractsDown(a: seq<nat>, b: seq<nat>, i: nat, z: seq<nat>, f: Flags, w: Width)
    requires Limbs(a, w) && Limbs(b, w) && |a| == |b|
  {
    && 0 < i <= |a|
    && SubChain(a, b, false, w) ==
       if i == |a| then (z, f)
       else var (rest, g) := SubChain(a[i..], b[i..], f.CF, w); (z + rest, g)
  }

  lemma AddStep(a: seq<nat>, b: seq<nat>, i: nat, z: seq<nat>, f: Flags, w: Width)
    requires Limbs(a, w) && Limbs(b, w) && |a| == |b| && i < |a| && AddsUp(a, b, i, z, f, w)
    ensures var o := Added(a[i], b[i], f.CF, w); AddsUp(a, b, i + 1, z + [o.result], o.flags, w)
  {
    hide Added;
    var o := Added(a[i], b[i], f.CF, w);
    assert a[i..][0] == a[i] && b[i..][0] == b[i] && a[i..][1..] == a[i + 1..] && b[i..][1..] == b[i + 1..];
    if i + 1 < |a| {
      var rest := AddChain(a[i + 1..], b[i + 1..], o.flags.CF, w).0;
      assert z + ([o.result] + rest) == z + [o.result] + rest;
    }
  }

  lemma SubtractStep(a: seq<nat>, b: seq<nat>, i: nat, z: seq<nat>, f: Flags, w: Width)
    requires Limbs(a, w) && Limbs(b, w) && |a| == |b| && i < |a| && SubtractsDown(a, b, i, z, f, w)
    ensures var o := Subtracted(a[i], b[i], f.CF, w); SubtractsDown(a, b, i + 1, z + [o.result], o.flags, w)
  {
    hide Subtracted;
    var o := Subtracted(a[i], b[i], f.CF, w);
    assert a[i..][0] == a[i] && b[i..][0] == b[i] && a[i..][1..] == a[i + 1..] && b[i..][1..] == b[i + 1..];
    if i + 1 < |a| {
      var rest := SubChain(a[i + 1..], b[i + 1..], o.flags.CF, w).0;
      assert z + ([o.result] + rest) == z + [o.result] + rest;
    }
  }

  /** A guest program's multi-limb addition: one `add`, then `adc` for each further limb. */
  method AddLimbs(cpu: CpuState, a: seq<nat>, b: seq<nat>, w: Width) returns (z: seq<nat>)
    requires Limbs(a, w) && Limbs(b, w) && |a| == |b|
    modifies cpu
    ensures (z, cpu.Eflags()) == AddChain(a, b, false, w)
    ensures var B := Base(w);
      Number(z, B) + (if cpu.CF then PowerOf(|a|, B) else 0) == Number(a, B) + Number(b, B)
    ensures cpu.OF <==> !Representable(SignedNumber(a, Base(w)) + SignedNumber(b, Base(w)), |a|, Base(w))
  {
    hide Base, Added, Number, PowerOf, SignedNumber, Representable;
    var r := cpu.AluAdd(b[0], a[0], w);
    z := [r];
    var i := 1;
    while i < |a|
      invariant 1 <= i <= |a| && AddsUp(a, b, i, z, cpu.Eflags(), w)
    {
      AddStep(a, b, i, z, cpu.Eflags(), w);
      r := cpu.AluAdc(b[i], a[i], w);
      z := z + [r];
      i := i + 1;
    }
    AddChainIsSum(a, b, false, w);
    AddChainIsSignedSum(a, b, false, w);
  }

  /** A guest program's multi-limb comparison: one `sub`, then `sbb` for each further limb. */
  method SubtractLimbs(cpu: CpuState, a: seq<nat>, b: seq<nat>, w: Width) returns (z: seq<nat>)
    requires Limbs(a, w) && Limbs(b, w) && |a| == |b|
    modifies cpu
    ensures (z, cpu.Eflags()) == SubChain(a, b, false, w)
    ensures ConditionB(cpu.Eflags()) <==> Number(a, Base(w)) < Number(b, Base(w))
    ensures ConditionL(cpu.Eflags()) <==> SignedNumber(a, Base(w)) < SignedNumber(b, Base(w))
  {
    hide Base, Subtracted, Number, SignedNumber;
    var r := cpu.AluSub(b[0], a[0], w);
    z := [r];
    var i := 1;
    while i < |a|
      invariant 1 <= i <= |a| && SubtractsDown(a, b, i, z, cpu.Eflags(), w)
    {
      SubtractStep(a, b, i, z, cpu.Eflags(), w);
      r := cpu.AluSbb(b[i], a[i], w);
      z := z + [r];
      i := i + 1;
    }
    SubChainCompares(a, b, w);
  }
}
