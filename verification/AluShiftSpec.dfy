/** Shifts as the manual defines them: one place at a time, the last bit out in CF. */
module AluShiftSpec {
  import opened Powers
  import opened AluSpec

  datatype Shifted = Shifted(result: nat, CF: bool, PF: bool, ZF: bool, SF: bool)

  function Flagged(r: nat, cf: bool, w: Width): (s: Shifted)
    ensures s.result == r
  {
    Shifted(r, cf, EvenParity(r), r == 0, r >= Half(w))
  }

  function ShlOnce(x: nat, w: Width): Shifted {
    Flagged(Low(2 * x, w), x >= Half(w), w)
  }

  function ShrOnce(x: nat, w: Width): Shifted {
    Flagged(x / 2, x % 2 == 1, w)
  }

  function SarOnce(x: nat, w: Width): Shifted {
    Flagged(x / 2 + if x >= Half(w) then Half(w) else 0, x % 2 == 1, w)
  }

  function ShlBits(x: nat, n: nat, w: Width): Shifted
    requires n >= 1
  {
    if n == 1 then ShlOnce(x, w) else ShlOnce(ShlBits(x, n - 1, w).result, w)
  }

  function ShrBits(x: nat, n: nat, w: Width): Shifted
    requires n >= 1
  {
    if n == 1 then ShrOnce(x, w) else ShrOnce(ShrBits(x, n - 1, w).result, w)
  }

  function SarBits(x: nat, n: nat, w: Width): Shifted
    requires n >= 1
  {
    if n == 1 then SarOnce(x, w) else SarOnce(SarBits(x, n - 1, w).result, w)
  }

  // ---------- the shifts of the host language ----------

  function Shr(x: nat, n: nat): (r: nat)
    ensures r <= x
  {
    DivMod(x, Pow2(n));
    x / Pow2(n)
  }

  predicate Bit(x: nat, k: nat) {
    x / Pow2(k) % 2 == 1
  }

  /** The bits of `x` below position `m`. */
  function Below(x: nat, m: nat): nat {
    x % Pow2(m)
  }

  lemma BaseIsPow2(w: Width)
    ensures Pow2(w) == Base(w) && Pow2(w - 1) == Half(w)
  {
    assert Pow2(8) == 0x100;
    assert Pow2(16) == 0x1_0000;
    assert Pow2(24) == 0x100_0000;
    assert Pow2(32) == 0x1_0000_0000;
  }

  lemma Pow2Doubles(n: nat)
    ensures Pow2(n + 1) == 2 * Pow2(n)
  {
  }

  lemma ShrSteps(x: nat, n: nat)
    ensures Shr(x, 0) == x && Shr(x, n + 1) == Shr(x, n) / 2
    ensures Bit(x, n) <==> Shr(x, n) % 2 == 1
  {
    assert Pow2(0) == 1;
    ShiftThenHalve(x, n);
  }

  lemma ShlSteps(x: nat, n: nat)
    ensures Shl(x, 0) == x && Shl(x, n + 1) == 2 * Shl(x, n)
  {
  }

  lemma BelowSteps(x: nat, m: nat)
    ensures Below(x, 0) == 0 && Below(x, m) < Pow2(m)
    ensures Below(x, m + 1) == (if Bit(x, m) then Pow2(m) else 0) + Below(x, m)
  {
    assert Pow2(0) == 1;
    SplitBit(x, m);
    DivMod(x, Pow2(m));
  }

  /** The bits of `x` below `m + 1`: bit `m` and the ones below it. */
  lemma SplitBit(x: nat, m: nat)
    ensures x % Pow2(m + 1) == x / Pow2(m) % 2 * Pow2(m) + x % Pow2(m)
  {
    var P := Pow2(m);
    var q := x / P;
    DivMod(x, P);
    MulAdd(2 * (q / 2), q % 2, P);
    MulAssoc(q / 2, 2, P, 2 * P);
    MulAssoc(2, q / 2, P, q / 2 * P);
    MulLe(q % 2, 1, P);
    MulLe(0, q % 2, P);
    DivUnique(x, 2 * P, q / 2, q % 2 * P + x % P);
  }

  lemma AllOut(x: nat, n: nat, w: Width)
    requires x < Base(w) && n >= w
    ensures Shr(x, n) == 0 && Below(x, n) == x
  {
    BaseIsPow2(w);
    Pow2Mono(w, n);
    DivUnique(x, Pow2(n), 0, x);
  }

  lemma ShlFits(x: nat, m: nat, n: nat, w: Width)
    requires m + n <= w && x < Pow2(m)
    ensures Shl(x, n) < Base(w)
    ensures n >= 1 ==> (m + n < w ==> Shl(x, n) < Half(w))
    ensures Shl(Pow2(m), n) == Pow2(m + n)
  {
    BaseIsPow2(w);
    Pow2Sum(m, n);
    Pow2Mono(m + n, w);
    if m + n < w {
      Pow2Mono(m + n, w - 1);
    }
    ScaleOrder(x, Pow2(m), Pow2(n));
    ShlIsProduct(x, n);
    ShlIsProduct(Pow2(m), n);
  }

  lemma ShlAdd(x: nat, y: nat, n: nat)
    ensures Shl(x + y, n) == Shl(x, n) + Shl(y, n)
  {
    ShlIsProduct(x, n);
    ShlIsProduct(y, n);
    ShlIsProduct(x + y, n);
    MulAdd(x, y, Pow2(n));
  }

  /** A bit below position `w` is a bit of the low part. */
  lemma BitOfLow(x: uint32, k: nat, w: Width)
    requires k < w
    ensures Bit(x, k) == Bit(Low(x, w), k)
  {
    BaseIsPow2(w);
    Pow2Sum(w - k, k);
    assert Pow2(w - k) == 2 * Pow2(w - k - 1);
    hide Base, Half, Pow2;
    DivMod(x, Base(w));
    HighPartIsEven(x, Low(x, w), x / Base(w), Base(w), Pow2(k), Pow2(w - k - 1));
  }

  lemma HighPartIsEven(x: nat, d: nat, q: nat, B: nat, P: nat, M: nat)
    requires P > 0 && x == q * B + d && 2 * M * P == B
    ensures x / P % 2 == d / P % 2
  {
    DivMod(d, P);
    MulAssoc(q, 2 * M, P, B);
    MulAdd(q * (2 * M), d / P, P);
    DivUnique(x, P, q * (2 * M) + d / P, d % P);
    MulAssoc(2, q, M, q * M);
    MulAssoc(q, 2, M, 2 * M);
    EvenPlus(q * M, d / P);
  }

  lemma EvenPlus(k: nat, x: nat)
    ensures (2 * k + x) % 2 == x % 2
  {
  }

  // ---------- closed forms of repeated one-place shifts ----------

  lemma {:induction false} ShrClosed(x: nat, n: nat, w: Width)
    requires n >= 1
    ensures ShrBits(x, n, w) == Flagged(Shr(x, n), Bit(x, n - 1), w)
  {
    hide EvenParity, Half, Shr, Bit;
    ShrSteps(x, n - 1);
    if n > 1 {
      ShrClosed(x, n - 1, w);
    }
  }

  lemma {:induction false} ShlClosed(x: nat, n: nat, w: Width)
    requires 1 <= n <= w && x < Base(w)
    ensures ShlBits(x, n, w) == Flagged(Shl(Below(x, w - n), n), Bit(x, w - n), w)
  {
    hide EvenParity, Half, Base, Shl, Bit, Below;
    if n == 1 {
      AllOut(x, w, w);
      ShlSteps(x, 0);
      ShlStepClosed(x, 0, w);
    } else {
      ShlClosed(x, n - 1, w);
      ShlStepClosed(x, n - 1, w);
    }
  }

  lemma ShlStepClosed(x: nat, n: nat, w: Width)
    requires n < w
    ensures var m := w - n - 1;
      ShlOnce(Shl(Below(x, m + 1), n), w) == Flagged(Shl(Below(x, m), n + 1), Bit(x, m), w)
  {
    hide EvenParity, Half, Base, Low, Shl, Bit, Below, Pow2;
    var m := w - n - 1;
    var s := Below(x, m);
    BaseIsPow2(w);
    BelowSteps(x, m);
    ShlFits(s, m, n, w);
    ShlAdd(Pow2(m), s, n);
    ShlSteps(s, n);
    ShlOnceOut(Shl(s, n), Bit(x, m), w);
  }

  lemma ShlOnceOut(s: nat, b: bool, w: Width)
    requires 2 * s < Base(w)
    ensures var y := (if b then Half(w) else 0) + s; (y >= Half(w) <==> b) && Low(2 * y, w) == 2 * s
  {
    hide Half, Base;
    DivUnique(2 * ((if b then Half(w) else 0) + s), Base(w), if b then 1 else 0, 2 * s);
  }

  /** Once everything is out only zeros follow. */
  lemma {:induction false} ShlBeyond(x: nat, n: nat, w: Width)
    requires n > w && x < Base(w)
    ensures ShlBits(x, n, w) == Flagged(0, false, w)
  {
    hide EvenParity, Base, Half, Shl, Below, Bit;
    if n == w + 1 {
      ShlClosed(x, w, w);
      BelowSteps(x, 0);
      ShlIsProduct(0, w);
    } else {
      ShlBeyond(x, n - 1, w);
    }
    assert Low(0, w) == 0;
  }

  lemma ShrBeyond(x: nat, n: nat, w: Width)
    requires n > w && x < Base(w)
    ensures ShrBits(x, n, w) == Flagged(0, false, w)
  {
    hide EvenParity, Base, Half, Shr, Bit;
    ShrClosed(x, n, w);
    AllOut(x, n, w);
    AllOut(x, n - 1, w);
    ShrSteps(x, n - 1);
  }

  lemma {:induction false} SarPositive(x: nat, n: nat, w: Width)
    requires n >= 1 && x < Half(w)
    ensures SarBits(x, n, w) == ShrBits(x, n, w) && ShrBits(x, n, w).result < Half(w)
  {
    hide EvenParity, Half;
    if n > 1 {
      SarPositive(x, n - 1, w);
    }
  }

  lemma {:induction false} SarNegative(x: nat, n: nat, w: Width)
    requires 1 <= n <= w && Half(w) <= x < Base(w)
    ensures Pow2(w - n) <= Half(w)
    ensures SarBits(x, n, w) == Flagged(Shr(x, n) + (2 * Half(w) - Pow2(w - n)), Bit(x, n - 1), w)
  {
    hide EvenParity, Half, Base, Pow2, Shr, Bit, SarBits, Flagged;
    BaseIsPow2(w);
    Pow2Mono(w - n, w - 1);
    Pow2Doubles(w - n);
    ShrSteps(x, n - 1);
    if n == 1 {
      SarFirst(x, w);
    } else {
      SarNegative(x, n - 1, w);
      assert w - (n - 1) == w - n + 1;
      SarNext(x, n, w, Shr(x, n - 1), Pow2(w - n));
      assert n - 1 + 1 == n;
    }
  }

  lemma SarFirst(x: nat, w: Width)
    requires x >= Half(w)
    ensures SarBits(x, 1, w) == Flagged(x / 2 + (2 * Half(w) - Half(w)), x % 2 == 1, w)
  {
    hide EvenParity, Half, Base;
  }

  lemma SarNext(x: nat, n: nat, w: Width, q: nat, p: nat)
    requires n >= 2 && 2 * p <= Half(w)
    requires SarBits(x, n - 1, w).result == q + (2 * Half(w) - 2 * p)
    ensures SarBits(x, n, w) == Flagged(q / 2 + (2 * Half(w) - p), q % 2 == 1, w)
  {
    hide EvenParity, Half, Base;
    SarOnceOnes(q, p, w);
  }

  /** One more place, with the ones already above `2 * p`. */
  lemma SarOnceOnes(q: nat, p: nat, w: Width)
    requires p <= Half(w) && q + (2 * Half(w) - 2 * p) >= Half(w)
    ensures SarOnce(q + (2 * Half(w) - 2 * p), w) == Flagged(q / 2 + (2 * Half(w) - p), q % 2 == 1, w)
  {
    hide EvenParity, Half, Base;
    HalveSum(q, Half(w), p);
  }

  lemma HalveSum(q: nat, h: nat, p: nat)
    requires p <= h
    ensures (q + (2 * h - 2 * p)) / 2 == q / 2 + (h - p) && (q + (2 * h - 2 * p)) % 2 == q % 2
  {
  }

  lemma {:induction false} SarNegativeBeyond(x: nat, n: nat, w: Width)
    requires n > w && Half(w) <= x < Base(w)
    ensures SarBits(x, n, w) == Flagged(2 * Half(w) - 1, true, w)
  {
    hide EvenParity, Half, Base, Shr, Bit, SarBits, SarOnce, Flagged, Pow2;
    if n == w + 1 {
      SarNegative(x, w, w);
      AllOut(x, w, w);
      assert Pow2(0) == 1 by { OnePlace(); }
    } else {
      SarNegativeBeyond(x, n - 1, w);
    }
    SarStep(x, n, w);
    OnesStay(w);
  }

  lemma OnePlace()
    ensures Pow2(0) == 1
  {
  }

  lemma SarStep(x: nat, n: nat, w: Width)
    requires n > 1
    ensures SarBits(x, n, w) == SarOnce(SarBits(x, n - 1, w).result, w)
  {
  }

  lemma OnesStay(w: Width)
    ensures SarOnce(2 * Half(w) - 1, w) == Flagged(2 * Half(w) - 1, true, w)
  {
    hide EvenParity, Half, Base;
  }

  // ---------- what the unit computes ----------

  /** Shifting left in 32 bits and masking. */
  lemma MaskedShl(x: nat, n: nat, w: Width)
    requires x < Base(w) && 1 <= n <= w
    ensures Low(Shl(x, n) % 0x1_0000_0000, w) == Shl(Below(x, w - n), n)
  {
    hide Half;
    WrapTwice(Shl(x, n), w);
    BaseIsPow2(w);
    Pow2Sum(w - n, n);
    var m, s, q := w - n, Below(x, w - n), x / Pow2(w - n);
    DivMod(x, Pow2(m));
    BelowSteps(x, m);
    ShlFits(s, m, n, w);
    ShlIsProduct(x, n);
    ShlIsProduct(s, n);
    hide Base, Shl, Pow2, Below;
    MulAdd(q * Pow2(m), s, Pow2(n));
    MulAssoc(q, Pow2(m), Pow2(n), Base(w));
    DivUnique(Shl(x, n), Base(w), q, Shl(s, n));
  }

  /** Bit w-1 is the sign. */
  lemma SignBit(x: uint32, w: Width)
    ensures Bit(x, w - 1) <==> Signed(Low(x, w), w) < 0
    ensures Bit(x, w - 1) <==> Low(x, w) >= Half(w)
  {
    BitOfLow(x, w - 1, w);
    BaseIsPow2(w);
    SignBitIs(Low(x, w), w);
  }

  /** The top bit of the shifted pattern, for a count of one. */
  lemma SecondBit(x: uint32, w: Width)
    ensures Bit(x, w - 2) <==> Shl(Below(Low(x, w), w - 1), 1) >= Half(w)
  {
    BitOfLow(x, w - 2, w);
    hide Half, Base, Shl, Bit, Below, Low;
    var d := Low(x, w);
    BelowSteps(d, w - 2);
    BaseIsPow2(w);
    ShlSteps(Below(d, w - 1), 0);
    assert w - 2 + 1 == w - 1;
    Pow2Doubles(w - 2);
  }

  /** The ones shifted in from the left. */
  lemma OnesFill(n: nat, w: Width)
    requires 1 <= n <= w
    ensures Shl(Pow2(n) - 1, w - n) == Base(w) - Pow2(w - n)
  {
    ShlIsProduct(Pow2(n) - 1, w - n);
    Pow2Sum(n, w - n);
    BaseIsPow2(w);
    MulAdd(Pow2(n), 1, Pow2(w - n));
  }

  lemma LowOfLow(r: nat, w: Width)
    requires r < Base(w)
    ensures Low(r, w) == r && (Signed(r, w) < 0 <==> r >= Half(w))
  {
    if w == 8 {
    } else if w == 16 {
    }
  }

  lemma {:induction false} OnesOfOnes(k: nat)
    ensures Ones(Pow2(k) - 1, k) == k
  {
    if k > 0 {
      OnesOfOnes(k - 1);
      assert (Pow2(k) - 1) / 2 == Pow2(k - 1) - 1 && (Pow2(k) - 1) % 2 == 1;
    }
  }

  lemma AllOnes(w: Width)
    ensures EvenParity(Base(w) - 1)
  {
    LowByteOfOnes(w);
    ParityOfLow(Base(w) - 1, 8);
    EvenByte();
    hide EvenParity, Base, Low;
  }

  lemma LowByteOfOnes(w: Width)
    ensures Low(Base(w) - 1, 8) == 0xff
  {
    if w == 8 {
    } else if w == 16 {
    }
  }

  lemma EvenByte()
    ensures EvenParity(0xff)
  {
    OnesOfOnes(8);
    assert Pow2(8) == 0x100;
  }

  lemma ZeroFlags(w: Width)
    ensures EvenParity(0) && Flagged(0, false, w) == Shifted(0, false, true, true, false)
  {
    assert Ones(0, 8) == 0;
  }

  /** A count of 0 leaves the operand, but not the flags: CF becomes the bit above the operand. */
  lemma ShlNothing(dest: uint32, w: Width)
    ensures var d := Low(dest, w);
      Low(Shl(d, 0) % 0x1_0000_0000, w) == Low(d, w) == d
    ensures Flagged(Low(dest, w), Bit(dest, w), w).SF <==> Signed(Low(dest, w), w) < 0
    ensures Bit(dest, w - 1) <==> Signed(Low(dest, w), w) < 0
  {
    hide EvenParity, Bit;
    SignBit(dest, w);
  }

  lemma ShlResult(dest: uint32, n: nat, w: Width)
    requires n >= 1 && !(n == 32 && w == 32)
    ensures var s, d := ShlBits(Low(dest, w), n, w), Low(dest, w);
      if n > w then
        s == Shifted(0, false, true, true, false)
      else
        var r := Low(Shl(d, n) % 0x1_0000_0000, w);
        && s == Shifted(r, Bit(dest, w - n), EvenParity(r), r == 0, Signed(r, w) < 0)
        && Low(r, w) == r
        && (n == 1 ==> (Bit(dest, w - 2) <==> s.SF))
    ensures Bit(dest, w - 1) <==> Signed(Low(dest, w), w) < 0
  {
    hide Base, Half, EvenParity, ShlBits, Shl, Bit, Below, Signed;
    var d := Low(dest, w);
    SignBit(dest, w);
    if n > w {
      ShlBeyond(d, n, w);
      ZeroFlags(w);
    } else {
      ShlClosed(d, n, w);
      MaskedShl(d, n, w);
      BitOfLow(dest, w - n, w);
      LowOfLow(ShlBits(d, n, w).result, w);
      if n == 1 {
        SecondBit(dest, w);
      }
    }
  }

  lemma ShrResult(dest: uint32, n: nat, w: Width)
    requires n >= 1 && !(n == 32 && w == 32)
    ensures var s, d := ShrBits(Low(dest, w), n, w), Low(dest, w);
      if n > w then
        s == Shifted(0, false, true, true, false)
      else
        var r := Low(Shr(d, n), w);
        && s == Shifted(r, Bit(dest, n - 1), EvenParity(r), r == 0, Signed(r, w) < 0)
        && Low(r, w) == r
    ensures Bit(dest, w - 1) <==> Signed(Low(dest, w), w) < 0
  {
    hide Base, Half, EvenParity, ShrBits, Shr, Bit, Signed;
    var d := Low(dest, w);
    SignBit(dest, w);
    if n > w {
      ShrBeyond(d, n, w);
      ZeroFlags(w);
    } else {
      ShrClosed(d, n, w);
      BitOfLow(dest, n - 1, w);
      LowOfLow(Shr(d, n), w);
    }
  }

  lemma SarResult(dest: uint32, n: nat, w: Width)
    requires n >= 1 && !(n == 32 && w == 32)
    ensures var s, d := SarBits(Low(dest, w), n, w), Low(dest, w);
      if n > w then
        s == if Bit(dest, w - 1) then Shifted(Base(w) - 1, true, true, false, true)
             else Shifted(0, false, true, true, false)
      else
        var r := Low(if Bit(dest, w - 1) then Shr(d, n) + Shl(Pow2(n) - 1, w - n) else Shr(d, n), w);
        && s == Shifted(r, Bit(dest, n - 1), EvenParity(r), r == 0, Signed(r, w) < 0)
        && Low(r, w) == r
  {
    hide Base, Half, EvenParity, SarBits, ShrBits, Shr, Shl, Bit, Signed, Pow2;
    var d := Low(dest, w);
    SignBit(dest, w);
    if !Bit(dest, w - 1) {
      SarPositive(d, n, w);
      ShrResult(dest, n, w);
    } else if n > w {
      SarNegativeBeyond(d, n, w);
      AllOnes(w);
    } else {
      SarNegative(d, n, w);
      BitOfLow(dest, n - 1, w);
      OnesFill(n, w);
      ShrBelow(d, n, w);
      LowOfLow(Shr(d, n) + (Base(w) - Pow2(w - n)), w);
    }
  }

  /** What remains after shifting right leaves room for the ones. */
  lemma ShrBelow(d: nat, n: nat, w: Width)
    requires d < Base(w) && n <= w
    ensures Shr(d, n) < Pow2(w - n)
  {
    BaseIsPow2(w);
    Pow2Sum(w - n, n);
    DivMod(d, Pow2(n));
    if Shr(d, n) >= Pow2(w - n) {
      MulLe(Pow2(w - n), Shr(d, n), Pow2(n));
    }
  }
}
