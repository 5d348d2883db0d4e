/** The machine's words, powers of two, and the few facts about them that shifting arithmetic needs. */
module Powers {
  type uint32 = x: int | 0 <= x < 0x1_0000_0000
  type bit = x: int | 0 <= x < 2

  function Pow2(n: nat): (p: nat)
    ensures p >= 1
  {
    if n == 0 then 1 else 2 * Pow2(n - 1)
  }

  lemma {:induction false} Pow2Sum(m: nat, n: nat)
    ensures Pow2(m + n) == Pow2(m) * Pow2(n)
  {
    if m == 0 {
    } else {
      Pow2Sum(m - 1, n);
      assert Pow2(m + n) == 2 * Pow2(m - 1 + n);
      MulAssoc(2, Pow2(m - 1), Pow2(n), Pow2(m - 1 + n));
    }
  }

  lemma {:induction false} Pow2Mono(m: nat, n: nat)
    requires m <= n
    ensures Pow2(m) <= Pow2(n)
    decreases n
  {
    if m < n {
      Pow2Mono(m, n - 1);
    }
  }

  /** h shifted left by k bits. */
  function Shl(h: nat, k: nat): nat {
    if k == 0 then h else 2 * Shl(h, k - 1)
  }

  lemma ShlStep(h: nat, k: nat)
    ensures Shl(h, 0) == h && Shl(h, k + 1) == 2 * Shl(h, k)
  {
  }

  lemma {:induction false} ShlIsProduct(h: nat, k: nat)
    ensures Shl(h, k) == h * Pow2(k)
  {
    if k == 0 {
    } else {
      ShlIsProduct(h, k - 1);
      MulAssoc(2, h, Pow2(k - 1), h * Pow2(k - 1));
      MulAssoc(h, 2, Pow2(k - 1), Pow2(k));
    }
  }

  /** Multiplying both sides of a comparison by a positive factor changes nothing. */
  lemma ScaleOrder(x: int, y: int, c: int)
    requires c > 0
    ensures x < y <==> x * c < y * c
    ensures x == y <==> x * c == y * c
  {
    if x < y {
      assert (y - x) * c > 0;
    } else if y < x {
      assert (x - y) * c > 0;
    }
  }

  lemma MulAssoc(x: int, y: int, z: int, w: int)
    requires w == y * z
    ensures x * y * z == x * w
  {
  }

  lemma MulLe(x: int, y: int, z: int)
    requires x <= y && z >= 0
    ensures x * z <= y * z
  {
  }

  lemma MulEq(x: int, y: int, z: int)
    requires x == y
    ensures x * z == y * z
  {
  }

  lemma MulAdd(x: int, y: int, z: int)
    ensures (x + y) * z == x * z + y * z
    ensures (x - y) * z == x * z - y * z
  {
  }

  lemma DivMod(x: nat, d: nat)
    requires d > 0
    ensures x == x / d * d + x % d && 0 <= x % d < d
    ensures 0 <= x / d <= x
  {
    var q := x / d;
    if q < 0 {
      MulLe(q, -1, d);
    } else {
      MulLe(1, d, q);
    }
  }

  lemma SameQuotient(d: nat, q: int, r: nat, q': int, r': nat)
    requires r < d && r' < d && q * d + r == q' * d + r'
    ensures q == q' && r == r'
  {
    MulAdd(q, 1, d);
    MulAdd(q', 1, d);
    if q < q' {
      MulLe(q + 1, q', d);
    } else if q' < q {
      MulLe(q' + 1, q, d);
    }
  }

  lemma DivUnique(x: nat, d: nat, q: nat, r: nat)
    requires r < d && x == q * d + r
    ensures x / d == q && x % d == r
  {
    DivMod(x, d);
    SameQuotient(d, q, r, x / d, x % d);
  }

  /** Dropping k + 1 bits is dropping one and then k. */
  lemma HalveThenShift(x: nat, k: nat)
    ensures x / Pow2(k + 1) == x / 2 / Pow2(k)
  {
    var P, q, r := Pow2(k), x / 2 / Pow2(k), x / 2 % Pow2(k);
    DivMod(x / 2, P);
    MulAssoc(q, P, 2, 2 * P);
    DivUnique(x, 2 * P, q, 2 * r + x % 2);
  }

  /** Bit `k` of a number. */
  predicate BitSet(x: nat, k: nat) {
    x / Pow2(k) % 2 == 1
  }

  lemma BitsHalved(x: nat, k: nat)
    ensures BitSet(x, 0) <==> x % 2 == 1
    ensures BitSet(x, k + 1) <==> BitSet(x / 2, k)
  {
    assert Pow2(0) == 1;
    hide Pow2;
    HalveThenShift(x, k);
  }

  lemma Pow2Unfolds(k: nat)
    ensures Pow2(0) == 1 && Pow2(k + 1) == 2 * Pow2(k)
  {
  }

  lemma HalfLess(x: nat, p: nat)
    requires x >= 2 * p
    ensures (x - 2 * p) / 2 == x / 2 - p && x / 2 >= p && (x - 2 * p) % 2 == x % 2
  {
  }

  lemma OneLess(x: nat)
    requires x % 2 == 1
    ensures x >= 1 && (x - 1) / 2 == x / 2 && (x - 1) % 2 == 0
  {
  }

  /** Taking away the weight of a set bit clears it and leaves every other bit. */
  lemma {:induction false} BitCleared(x: nat, j: nat, k: nat)
    requires BitSet(x, j)
    ensures x >= Pow2(j)
    ensures BitSet(x - Pow2(j), k) <==> k != j && BitSet(x, k)
    decreases j
  {
    hide BitSet, Pow2;
    BitsHalved(x, if k > 0 then k - 1 else 0);
    Pow2Unfolds(if j > 0 then j - 1 else 0);
    if j == 0 {
      OneLess(x);
      BitsHalved(x - 1, if k > 0 then k - 1 else 0);
    } else {
      var p := Pow2(j - 1);
      BitsHalved(x, j - 1);
      BitCleared(x / 2, j - 1, if k > 0 then k - 1 else 0);
      HalfLess(x, p);
      BitsHalved(x - 2 * p, if k > 0 then k - 1 else 0);
    }
  }

  lemma Pow2Sum3(x: nat, y: nat, z: nat)
    ensures Pow2(x) * Pow2(y) * Pow2(z) == Pow2(x + y + z)
  {
    Pow2Sum(x, y);
    Pow2Sum(x + y, z);
    MulEq(Pow2(x) * Pow2(y), Pow2(x + y), Pow2(z));
  }

  lemma Pow2At64()
    ensures Pow2(64) == 0x1_0000_0000_0000_0000
  {
    assert Pow2(8) == 0x100;
    Pow2Sum(8, 8);
    assert Pow2(16) == 0x1_0000;
    Pow2Sum(16, 16);
    assert Pow2(32) == 0x1_0000_0000;
    Pow2Sum(32, 32);
  }
}
