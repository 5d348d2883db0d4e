/** What the flag-setting integer operations compute, in plain arithmetic. */
module AluSpec {
  import opened Powers

  type Width = w: int | w == 8 || w == 16 || w == 32 witness 8

  datatype Flags = Flags(CF: bool, PF: bool, ZF: bool, SF: bool, OF: bool)
  datatype Outcome = Outcome(result: nat, flags: Flags)

  function Base(w: Width): (B: nat)
    ensures 256 <= B <= 0x1_0000_0000 && B % 2 == 0
  {
    if w == 8 then 0x100 else if w == 16 then 0x1_0000 else 0x1_0000_0000
  }

  function Half(w: Width): (h: int)
    ensures Base(w) == 2 * h && h >= 128
  {
    Base(w) / 2
  }

  /** The low `w` bits: the operand proper, and any sum or difference wrapped to the width. */
  function Low(x: int, w: Width): (d: nat)
    ensures d < Base(w)
  {
    x % Base(w)
  }

  /** Two's complement reading of a `w`-bit pattern. */
  function Signed(x: nat, w: Width): int {
    if x < Half(w) then x else x - Base(w)
  }

  predicate InRange(x: int, w: Width) {
    -Half(w) <= x < Half(w)
  }

  /** The number of ones among the low `k` bits. */
  function Ones(x: nat, k: nat): nat {
    if k == 0 then 0 else x % 2 + Ones(x / 2, k - 1)
  }

  predicate EvenParity(x: nat) {
    Ones(x, 8) % 2 == 0
  }

  function Carry(c: bool): nat {
    if c then 1 else 0
  }

  lemma NoCarry()
    ensures Carry(false) == 0
  {
  }

  /** dest + src + carry. */
  function Added(dest: uint32, src: uint32, c: bool, w: Width): Outcome {
    var d, s := Low(dest, w), Low(src, w);
    var sum := d + s + Carry(c);
    var r := Low(sum, w);
    Outcome(r, Flags(
      sum >= Base(w),
      EvenParity(r),
      r == 0,
      Signed(r, w) < 0,
      !InRange(Signed(d, w) + Signed(s, w) + Carry(c), w)))
  }

  /** dest - src - borrow. */
  function Subtracted(dest: uint32, src: uint32, c: bool, w: Width): Outcome {
    var d, s := Low(dest, w), Low(src, w);
    var diff := d - s - Carry(c);
    var r := Low(diff, w);
    Outcome(r, Flags(
      diff < 0,
      EvenParity(r),
      r == 0,
      Signed(r, w) < 0,
      !InRange(Signed(d, w) - Signed(s, w) - Carry(c), w)))
  }

  /** Arithmetic of the host's 32-bit registers. */
  function Wrap32(x: int): uint32 {
    x % 0x1_0000_0000
  }

  /** The five flags of a sum, read off the operands. */
  lemma AddedMeans(dest: uint32, src: uint32, c: bool, w: Width)
    ensures var B := if w == 8 then 0x100 else if w == 16 then 0x1_0000 else 0x1_0000_0000;
      var d, s, carry := dest % B, src % B, if c then 1 else 0;
      var x, o := d + s + carry, Added(dest, src, c, w);
      && o.result == x % B && (o.flags.CF <==> x >= B) && (o.flags.ZF <==> x == 0 || x == B)
      && (o.flags.SF <==> x % B >= B / 2) && (o.flags.PF <==> EvenParity(x % B))
      && var exact := d - (if d >= B / 2 then B else 0) + s - (if s >= B / 2 then B else 0) + carry;
      o.flags.OF <==> exact < -B / 2 || exact >= B / 2
  {
    hide Added, Base, Half, Low, EvenParity;
    BaseBits(w);
    LowBits(dest, w);
    LowBits(src, w);
    LowBits(Low(dest, w) + Low(src, w) + Carry(c), w);
    SumOutcome(dest, src, c, w);
  }

  lemma SumOutcome(dest: uint32, src: uint32, c: bool, w: Width)
    ensures var B, d, s := Base(w), Low(dest, w), Low(src, w);
      var x, o := d + s + Carry(c), Added(dest, src, c, w);
      && o.result == Low(x, w) && (o.flags.CF <==> x >= B) && (o.flags.ZF <==> x == 0 || x == B)
      && (o.flags.SF <==> Low(x, w) >= Half(w)) && (o.flags.PF <==> EvenParity(Low(x, w)))
      && var exact := d - (if d >= Half(w) then B else 0) + s - (if s >= Half(w) then B else 0) + Carry(c);
      o.flags.OF <==> exact < -Half(w) || exact >= Half(w)
  {
    hide Base, Half, Low, EvenParity;
    WrapSum(Low(dest, w) + Low(src, w) + Carry(c), w);
  }

  /** And of a difference. */
  lemma SubtractedMeans(dest: uint32, src: uint32, c: bool, w: Width)
    ensures var B := if w == 8 then 0x100 else if w == 16 then 0x1_0000 else 0x1_0000_0000;
      var d, s, borrow := dest % B, src % B, if c then 1 else 0;
      var x, o := d - s - borrow, Subtracted(dest, src, c, w);
      && o.result == x % B && (o.flags.CF <==> x < 0) && (o.flags.ZF <==> x == 0 || x + B == 0)
      && (o.flags.SF <==> x % B >= B / 2) && (o.flags.PF <==> EvenParity(x % B))
      && var exact := d - (if d >= B / 2 then B else 0) - s + (if s >= B / 2 then B else 0) - borrow;
      o.flags.OF <==> exact < -B / 2 || exact >= B / 2
  {
    hide Subtracted, Base, Half, Low, EvenParity;
    BaseBits(w);
    LowBits(dest, w);
    LowBits(src, w);
    LowBits(Low(dest, w) - Low(src, w) - Carry(c), w);
    DifferenceOutcome(dest, src, c, w);
  }

  lemma DifferenceOutcome(dest: uint32, src: uint32, c: bool, w: Width)
    ensures var B, d, s := Base(w), Low(dest, w), Low(src, w);
      var x, o := d - s - Carry(c), Subtracted(dest, src, c, w);
      && o.result == Low(x, w) && (o.flags.CF <==> x < 0) && (o.flags.ZF <==> x == 0 || x + B == 0)
      && (o.flags.SF <==> Low(x, w) >= Half(w)) && (o.flags.PF <==> EvenParity(Low(x, w)))
      && var exact := d - (if d >= Half(w) then B else 0) - s + (if s >= Half(w) then B else 0) - Carry(c);
      o.flags.OF <==> exact < -Half(w) || exact >= Half(w)
  {
    hide Base, Half, Low, EvenParity;
    WrapSum(Low(dest, w) - Low(src, w) - Carry(c), w);
  }

  lemma BaseBits(w: Width)
    ensures Base(w) == (if w == 8 then 0x100 else if w == 16 then 0x1_0000 else 0x1_0000_0000)
    ensures Half(w) == (if w == 8 then 0x80 else if w == 16 then 0x8000 else 0x8000_0000)
  {
  }

  lemma LowBits(x: int, w: Width)
    ensures Low(x, w) == x % Base(w)
  {
  }

  // ---------- parity is that of the low eight bits ----------

  lemma {:induction false} OneMore(x: nat, k: nat, n: nat)
    requires k < n && x / Pow2(k) % 2 == 0
    ensures Ones(x + Pow2(k), n) == Ones(x, n) + 1
  {
    hide Pow2, Ones;
    OnesStep(x, n);
    OnesStep(x + Pow2(k), n);
    if k == 0 {
      Pow2At0();
      OddAfterEven(x);
    } else {
      HalveThenShift(x, k - 1);
      Pow2Twice(k - 1);
      AddEven(x, Pow2(k - 1));
      OneMore(x / 2, k - 1, n - 1);
    }
  }

  lemma Pow2At0()
    ensures Pow2(0) == 1
  {
  }

  lemma Pow2Twice(k: nat)
    ensures Pow2(k + 1) == 2 * Pow2(k)
  {
  }

  lemma OddAfterEven(x: nat)
    requires x % 2 == 0
    ensures (x + 1) % 2 == 1 && (x + 1) / 2 == x / 2
  {
  }

  lemma NoOnesInZero()
    ensures Ones(0, 8) == 0
  {
  }

  lemma Pow2At8()
    ensures Pow2(8) == 0x100
  {
  }

  /** Zero is even, bits above the eighth do not matter, and setting any of the low eight flips the parity. */
  lemma ParityFlips(x: nat, k: nat)
    ensures EvenParity(0) && (EvenParity(x) <==> EvenParity(x % 0x100))
    ensures k < 8 && x / Pow2(k) % 2 == 0 ==> (EvenParity(x + Pow2(k)) <==> !EvenParity(x))
  {
    hide Ones, Pow2;
    NoOnesInZero();
    Pow2At8();
    DivMod(x, 0x100);
    OnesIgnoresHighBits(x % 0x100, x / 0x100, 8);
    if k < 8 && x / Pow2(k) % 2 == 0 {
      OneMore(x, k, 8);
    }
  }

  lemma {:induction false} OnesIgnoresHighBits(x: nat, q: nat, k: nat)
    ensures Ones(x + q * Pow2(k), k) == Ones(x, k)
  {
    if k == 0 {
    } else {
      MulAssoc(q, 2, Pow2(k - 1), Pow2(k));
      MulAssoc(2, q, Pow2(k - 1), q * Pow2(k - 1));
      OnesIgnoresHighBits(x / 2, q, k - 1);
      AddEven(x, q * Pow2(k - 1));
    }
  }

  lemma AddEven(x: nat, y: nat)
    ensures (x + 2 * y) % 2 == x % 2 && (x + 2 * y) / 2 == x / 2 + y
  {
  }

  lemma ParityOfLow(x: nat, w: Width)
    ensures EvenParity(Low(x, w)) == EvenParity(x)
  {
    assert Pow2(8) == 0x100;
    var r, k := x % Base(w), x / Base(w);
    assert x == r + k * Base(w);
    hide Ones;
    if w == 8 {
      OnesIgnoresHighBits(r, k, 8);
    } else if w == 16 {
      OnesIgnoresHighBits(r, k * 0x100, 8);
    } else {
      OnesIgnoresHighBits(r, k * 0x100_0000, 8);
    }
  }

  /** `w` more places to the right. */
  lemma ShiftThenHalve(x: nat, k: nat)
    ensures x / Pow2(k + 1) == x / Pow2(k) / 2
  {
    var P := Pow2(k);
    var q := x / P;
    DivMod(x, P);
    MulAdd(2 * (q / 2), q % 2, P);
    MulAssoc(q / 2, 2, P, 2 * P);
    MulAssoc(2, q / 2, P, q / 2 * P);
    MulLe(q % 2, 1, P);
    MulLe(0, q % 2, P);
    DivUnique(x, 2 * P, q / 2, q % 2 * P + x % P);
  }

  lemma NoOnes(x: nat)
    ensures Ones(x, 0) == 0
  {
  }

  /** One turn of the counting loop. */
  lemma OnesStep(q: nat, k: nat)
    requires k > 0
    ensures Ones(q, k) == q % 2 + Ones(q / 2, k - 1)
  {
  }

  // ---------- arithmetic modulo 2^w ----------

  /** Wrapping at 32 bits first makes no difference to the low `w` bits. */
  lemma WrapTwice(x: int, w: Width)
    ensures Low(x % 0x1_0000_0000, w) == Low(x, w)
  {
    if w == 8 {
      WrapTwiceBy(x, 0x100_0000, 0x100);
    } else if w == 16 {
      WrapTwiceBy(x, 0x1_0000, 0x1_0000);
    } else {
      WrapTwiceBy(x, 1, 0x1_0000_0000);
    }
  }

  lemma WrapTwiceBy(x: int, k: nat, B: nat)
    requires B > 0 && k > 0 && k * B == 0x1_0000_0000
    ensures x % 0x1_0000_0000 % B == x % B
  {
    var M := 0x1_0000_0000;
    var q, r := x / M, x % M;
    var q', r' := r / B, r % B;
    MulAssoc(q, k, B, M);
    MulAdd(q * k, q', B);
    assert x == q * M + r && r == q' * B + r';
    SameQuotient(B, q * k + q', r', x / B, x % B);
  }

  lemma WrapSum(x: int, w: Width)
    requires 0 <= x + Base(w) && x < 2 * Base(w)
    ensures Low(x, w) == if x < 0 then x + Base(w) else if x >= Base(w) then x - Base(w) else x
  {
    if w == 8 {
    } else if w == 16 {
    }
  }

  /** The bit that the flag setters extract is the sign. */
  lemma SignBitIs(x: nat, w: Width)
    requires x < Base(w)
    ensures x / Half(w) % 2 == if Signed(x, w) < 0 then 1 else 0
  {
    if w == 8 {
    } else if w == 16 {
    }
  }

  /** Carry and overflow of a wrapped sum, from the operands and the result alone. */
  lemma SumFlags(d: nat, s: nat, c: bool, r: nat, w: Width)
    requires d < Base(w) && s < Base(w)
    requires var x := d + s + Carry(c); r == if x >= Base(w) then x - Base(w) else x
    ensures d + s + Carry(c) >= Base(w) <==> if c then r <= s else r < s
    ensures !InRange(Signed(d, w) + Signed(s, w) + Carry(c), w) <==>
      (Signed(s, w) < 0 <==> Signed(d, w) < 0) && (Signed(r, w) < 0 <==> Signed(s, w) >= 0)
  {
    hide Base, Half;
  }

  /** Borrow and overflow of a wrapped difference. */
  lemma DifferenceFlags(d: nat, s: nat, c: bool, r: nat, w: Width)
    requires d < Base(w) && s < Base(w)
    requires var x := d - s - Carry(c); r == if x < 0 then x + Base(w) else x
    ensures d - s - Carry(c) < 0 <==> if c then s >= d else s > d
    ensures !InRange(Signed(d, w) - Signed(s, w) - Carry(c), w) <==>
      (Signed(s, w) < 0 <==> Signed(d, w) >= 0) && (Signed(r, w) < 0 <==> Signed(d, w) >= 0)
  {
    hide Base, Half;
  }

  /** The sign rule is the signed overflow of a wrapped sum. */
  lemma SumOverflows(result: uint32, src: uint32, dest: uint32, w: Width, c: bool)
    ensures var r, s, d := Signed(Low(result, w), w), Signed(Low(src, w), w), Signed(Low(dest, w), w);
      Low(result, w) == Low(Low(dest, w) + Low(src, w) + Carry(c), w) ==>
        (!InRange(d + s + Carry(c), w) <==> (s < 0 <==> d < 0) && (r < 0 <==> s >= 0))
  {
    hide Base, Half, Signed, InRange, Low;
    if Low(result, w) == Low(Low(dest, w) + Low(src, w) + Carry(c), w) {
      WrapSum(Low(dest, w) + Low(src, w) + Carry(c), w);
      SumFlags(Low(dest, w), Low(src, w), c, Low(result, w), w);
    }
  }

  lemma DifferenceOverflows(result: uint32, src: uint32, dest: uint32, w: Width, c: bool)
    ensures var r, s, d := Signed(Low(result, w), w), Signed(Low(src, w), w), Signed(Low(dest, w), w);
      Low(result, w) == Low(Low(dest, w) - Low(src, w) - Carry(c), w) ==>
        (!InRange(d - s - Carry(c), w) <==> (s < 0 <==> d >= 0) && (r < 0 <==> d >= 0))
  {
    hide Base, Half, Signed, InRange, Low;
    if Low(result, w) == Low(Low(dest, w) - Low(src, w) - Carry(c), w) {
      WrapSum(Low(dest, w) - Low(src, w) - Carry(c), w);
      DifferenceFlags(Low(dest, w), Low(src, w), c, Low(result, w), w);
    }
  }

  /** The 32-bit result holds the wrapped value and its parity. */
  lemma ResultIs(x: int, w: Width, result: uint32)
    requires result == Wrap32(x)
    ensures Low(result, w) == Low(x, w)
    ensures EvenParity(result) <==> EvenParity(Low(result, w))
  {
    hide EvenParity;
    WrapTwice(x, w);
    ParityOfLow(result, w);
  }
}
