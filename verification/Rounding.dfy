/** roundTiesToEven of IEEE 754-2008, section 4.3.1, for any non-negative fraction X/D. */
module Rounding {
  import opened Powers
  import opened Binary32

  /** The value X/D lies below the midpoint of floats `n` and `n + 1`, or on it with `n` even. */
  predicate RoundsDown(X: nat, D: nat, n: nat)
    requires n < INF
  {
    var twiceMid := Grid(n, D) + Grid(n + 1, D);
    2 * X < twiceMid || (2 * X == twiceMid && n % 2 == 0)
  }

  function RoundFrom(X: nat, D: nat, n: nat): (r: nat)
    requires n <= INF
    ensures n <= r <= INF
    ensures r < INF ==> RoundsDown(X, D, r)
    decreases INF - n
  {
    if n == INF || RoundsDown(X, D, n) then n else RoundFrom(X, D, n + 1)
  }

  /** The pattern that the magnitude X/D rounds to: the first float not passed by its midpoint. */
  function RoundNE(X: nat, D: nat): (r: nat)
    ensures r <= INF
    ensures r < INF ==> RoundsDown(X, D, r)
  {
    RoundFrom(X, D, 0)
  }

  // ---------- what the standard says ----------

  function Distance(x: int, y: int): nat {
    if x <= y then y - x else x - y
  }

  /** The words of section 4.3.1: nearest, even significand on a tie, infinity from the overflow bound. */
  ghost predicate NearestTiesToEven(X: nat, D: nat, n: nat)
    requires n <= INF
  {
    if 2 * X >= Grid(INF - 1, D) + Grid(INF, D) then
      n == INF
    else
      && n < INF
      && forall m | 0 <= m < INF && m != n :: NoFarther(X, D, n, m)
  }

  /** Float `n` is nearer to X/D than `m`, or as near and even. */
  predicate NoFarther(X: nat, D: nat, n: nat, m: nat)
    requires n < INF && m < INF
  {
    var dn, dm := Distance(X, Grid(n, D)), Distance(X, Grid(m, D));
    dn < dm || (dn == dm && n % 2 == 0)
  }

  /** `RoundNE` is the rounding the standard describes, against every finite float. */
  lemma RoundIsNearest(X: nat, D: nat)
    requires D > 0
    ensures NearestTiesToEven(X, D, RoundNE(X, D))
  {
    var n := RoundNE(X, D);
    RoundLocal(X, D);
    if 2 * X >= Grid(INF - 1, D) + Grid(INF, D) {
      if n < INF {
        RoundsDownMono(X, D, n, INF - 1);
      }
    } else {
      forall m | 0 <= m < INF && m != n
        ensures NoFarther(X, D, n, m)
      {
        LocalIsGlobal(X, D, n, m);
      }
    }
  }

  lemma LocalIsGlobal(X: nat, D: nat, n: nat, m: nat)
    requires D > 0 && n < INF && m < INF && m != n
    requires RoundsDown(X, D, n) && (n > 0 ==> !RoundsDown(X, D, n - 1))
    ensures NoFarther(X, D, n, m)
    ensures n % 2 == 0 && m % 2 == 0 ==> Distance(X, Grid(n, D)) != Distance(X, Grid(m, D))
  {
    hide Grid;
    if m > n {
      GridMono(n, n + 1, D);
      GridMono(n + 1, m, D);
    } else {
      GridMono(m, n - 1, D);
      GridMono(n - 1, n, D);
    }
  }

  /** No other float meets the standard's description. */
  lemma NearestIsUnique(X: nat, D: nat, n: nat)
    requires D > 0 && n <= INF && NearestTiesToEven(X, D, n)
    ensures n == RoundNE(X, D)
  {
    var r := RoundNE(X, D);
    RoundIsNearest(X, D);
    if n != r {
      RoundLocal(X, D);
      assert NoFarther(X, D, n, r);
      LocalIsGlobal(X, D, r, n);
    }
  }

  /** Halfway between two neighbours the one whose last bit is 0 is taken. */
  lemma MidpointRoundsToEven(n: nat)
    requires n < 0x7f80_0000
    ensures var r := RoundNE(Grid(n, 1) + Grid(n + 1, 1), 2); r % 2 == 0 && (r == n || r == n + 1)
  {
    hide Grid, RoundNE, RoundsDown;
    MidpointRoundsDown(n);
    if n % 2 == 0 {
      RoundUnique(Grid(n, 1) + Grid(n + 1, 1), 2, n);
    } else {
      RoundUnique(Grid(n, 1) + Grid(n + 1, 1), 2, n + 1);
    }
  }

  lemma MidpointRoundsDown(n: nat)
    requires n < INF
    ensures var X := Grid(n, 1) + Grid(n + 1, 1);
      && (RoundsDown(X, 2, n) <==> n % 2 == 0)
      && (n > 0 ==> !RoundsDown(X, 2, n - 1))
      && (n + 1 < INF ==> RoundsDown(X, 2, n + 1))
  {
    hide Grid;
    GridScale(n, 1, 2);
    GridScale(n + 1, 1, 2);
    GridMono(n, n + 1, 2);
    if n > 0 {
      GridMono(n - 1, n, 2);
    }
    if n + 1 < INF {
      GridMono(n + 1, n + 2, 2);
    }
  }

  // ---------- finding the rounded pattern ----------

  lemma RoundsDownMono(X: nat, D: nat, m: nat, n: nat)
    requires D > 0 && m <= n < INF
    requires RoundsDown(X, D, m)
    ensures RoundsDown(X, D, n)
  {
    if m < n {
      GridMono(m, n, D);
      GridMono(m + 1, n + 1, D);
    }
  }

  lemma {:induction false} RoundFromSkips(X: nat, D: nat, m: nat, n: nat)
    requires D > 0 && m <= n <= INF
    requires n > 0 ==> !RoundsDown(X, D, n - 1)
    ensures RoundFrom(X, D, m) == RoundFrom(X, D, n)
    decreases n - m
  {
    if m < n {
      if RoundsDown(X, D, m) {
        RoundsDownMono(X, D, m, n - 1);
      }
      RoundFromSkips(X, D, m + 1, n);
    }
  }

  /** Two local tests identify the rounded pattern. */
  lemma RoundUnique(X: nat, D: nat, n: nat)
    requires D > 0 && n <= INF
    requires n < INF ==> RoundsDown(X, D, n)
    requires n > 0 ==> !RoundsDown(X, D, n - 1)
    ensures RoundNE(X, D) == n
  {
    RoundFromSkips(X, D, 0, n);
  }

  lemma RoundLocal(X: nat, D: nat)
    requires D > 0
    ensures var r := RoundNE(X, D); r > 0 ==> !RoundsDown(X, D, r - 1)
  {
    RoundLocalFrom(X, D, 0);
  }

  lemma {:induction false} RoundLocalFrom(X: nat, D: nat, n: nat)
    requires D > 0 && n <= INF
    requires n > 0 ==> !RoundsDown(X, D, n - 1)
    ensures var r := RoundFrom(X, D, n); r > 0 ==> !RoundsDown(X, D, r - 1)
    decreases INF - n
  {
    if n == INF || RoundsDown(X, D, n) {
    } else {
      RoundLocalFrom(X, D, n + 1);
    }
  }

  /** Values between two neighbouring floats go to one of them. */
  lemma RoundBetween(X: nat, D: nat, n: nat)
    requires D > 0 && n < INF
    requires Grid(n, D) <= X < Grid(n + 1, D)
    ensures RoundNE(X, D) == if RoundsDown(X, D, n) then n else n + 1
  {
    if n > 0 {
      GridMono(n - 1, n, D);
    }
    if RoundsDown(X, D, n) {
      RoundUnique(X, D, n);
    } else {
      if n + 1 < INF {
        GridMono(n + 1, n + 2, D);
      }
      RoundUnique(X, D, n + 1);
    }
  }

  /** From 2^128 on, everything rounds to infinity. */
  lemma RoundHuge(X: nat, D: nat)
    requires D > 0 && X >= Grid(INF, D)
    ensures RoundNE(X, D) == INF
  {
    GridMono(INF - 1, INF, D);
    RoundUnique(X, D, INF);
  }

  /** A representable magnitude is its own rounding. */
  lemma RoundExact(n: nat)
    requires n <= INF
    ensures RoundNE(Grid(n, 1), 1) == n
  {
    if n < INF {
      GridMono(n, n + 1, 1);
      RoundBetween(Grid(n, 1), 1, n);
    } else {
      RoundHuge(Grid(n, 1), 1);
    }
  }

  // ---------- rounding as a function of the value ----------

  lemma RoundsDownScale(X: nat, D: nat, c: nat, n: nat)
    requires c > 0 && n < INF
    ensures RoundsDown(X * c, D * c, n) == RoundsDown(X, D, n)
  {
    GridScale(n, D, c);
    GridScale(n + 1, D, c);
    var M := Grid(n, D) + Grid(n + 1, D);
    assert Grid(n, D) * c + Grid(n + 1, D) * c == M * c;
    assert 2 * (X * c) == 2 * X * c;
    ScaleOrder(2 * X, M, c);
  }

  lemma {:induction false} RoundFromScale(X: nat, D: nat, c: nat, n: nat)
    requires c > 0 && n <= INF
    ensures RoundFrom(X * c, D * c, n) == RoundFrom(X, D, n)
    decreases INF - n
  {
    if n < INF {
      RoundsDownScale(X, D, c, n);
      RoundFromScale(X, D, c, n + 1);
    }
  }

  lemma RoundScale(X: nat, D: nat, c: nat)
    requires c > 0
    ensures RoundNE(X * c, D * c) == RoundNE(X, D)
  {
    RoundFromScale(X, D, c, 0);
  }

  /** Rounding never reorders values. */
  lemma RoundMono(X: nat, D: nat, Y: nat, C: nat)
    requires D > 0 && C > 0 && X * C <= Y * D
    ensures RoundNE(X, D) <= RoundNE(Y, C)
  {
    hide RoundNE;
    RoundScale(X, D, C);
    RoundScale(Y, C, D);
    assert D * C == C * D;
    RoundMonoSame(X * C, Y * D, D * C);
  }

  lemma RoundMonoSame(X: nat, Y: nat, D: nat)
    requires D > 0 && X <= Y
    ensures RoundNE(X, D) <= RoundNE(Y, D)
  {
    var m, n := RoundNE(X, D), RoundNE(Y, D);
    RoundLocal(X, D);
    if m > n {
      assert RoundsDown(X, D, n);
      RoundsDownMono(X, D, n, m - 1);
    }
  }

  /** Only the ratio X/D matters. */
  lemma RoundSame(X: nat, D: nat, Y: nat, C: nat)
    requires D > 0 && C > 0 && X * C == Y * D
    ensures RoundNE(X, D) == RoundNE(Y, C)
  {
    RoundMono(X, D, Y, C);
    RoundMono(Y, C, X, D);
  }

  /** Two values on the same side of every midpoint round alike. */
  lemma {:induction false} RoundAgrees(X: nat, D: nat, Y: nat, C: nat, n: nat)
    requires n <= INF
    requires forall k | n <= k < INF :: RoundsDown(X, D, k) == RoundsDown(Y, C, k)
    ensures RoundFrom(X, D, n) == RoundFrom(Y, C, n)
    decreases INF - n
  {
    if n < INF {
      RoundAgrees(X, D, Y, C, n + 1);
    }
  }
}
