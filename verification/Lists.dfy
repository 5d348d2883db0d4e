/** Sequences without repetition and the sets of their elements. */
module Lists {
  /** The null link of lists that are threaded through a pool by index. */
  const NULL := -1

  /** Node `i` of a list, or the null link past its end. */
  function At(nodes: seq<int>, i: nat): int {
    if i < |nodes| then nodes[i] else NULL
  }

  ghost predicate NoDup<T>(s: seq<T>) {
    forall i, j | 0 <= i < j < |s| :: s[i] != s[j]
  }

  ghost function Elems<T>(s: seq<T>): set<T> {
    set x | x in s
  }

  lemma Apart<T>(s: seq<T>, k: nat)
    requires NoDup(s) && k < |s|
    ensures forall i | 0 <= i < |s| && i != k :: s[i] != s[k]
  {
  }

  /** `s` without its element at `k`. */
  function Without<T>(s: seq<T>, k: nat): (r: seq<T>)
    requires k < |s|
    ensures |r| == |s| - 1
    ensures forall i | 0 <= i < |r| :: r[i] == s[if i < k then i else i + 1]
  {
    s[..k] + s[k + 1..]
  }

  lemma WithoutElems<T>(s: seq<T>, k: nat)
    requires k < |s| && NoDup(s)
    ensures NoDup(Without(s, k)) && Elems(Without(s, k)) == Elems(s) - {s[k]}
  {
    var r := Without(s, k);
    forall x
      ensures x in r <==> x in s && x != s[k]
    {
      if x in r {
        var i :| 0 <= i < |r| && r[i] == x;
        assert s[if i < k then i else i + 1] == x;
      }
      if x in s && x != s[k] {
        var i :| 0 <= i < |s| && s[i] == x;
        assert r[if i < k then i else i - 1] == x;
      }
    }
  }

  lemma ConsElems<T>(x: T, s: seq<T>)
    requires NoDup(s) && x !in s
    ensures NoDup([x] + s) && Elems([x] + s) == Elems(s) + {x}
  {
    var r := [x] + s;
    forall i, j | 0 <= i < j < |r|
      ensures r[i] != r[j]
    {
      assert r[j] == s[j - 1];
    }
    assert forall y :: y in r <==> y == x || y in s;
  }

  lemma {:induction false} NoDupCount<T>(s: seq<T>)
    requires NoDup(s)
    ensures |Elems(s)| == |s|
  {
    if s == [] {
      assert Elems(s) == {};
    } else {
      WithoutElems(s, 0);
      assert Without(s, 0) == s[1..];
      NoDupCount(s[1..]);
      assert s[0] in Elems(s);
    }
  }

  lemma EmptyElems<T>(s: seq<T>)
    requires s == []
    ensures Elems(s) == {}
  {
  }

  lemma FirstElems<T>(s: seq<T>)
    requires NoDup(s) && s != []
    ensures NoDup(s[1..]) && s[0] !in s[1..] && Elems(s) == Elems(s[1..]) + {s[0]} && s[0] !in Elems(s[1..])
  {
    WithoutElems(s, 0);
    assert Without(s, 0) == s[1..];
    InElems(s, s[0]);
  }

  lemma InElems<T>(s: seq<T>, x: T)
    ensures x in Elems(s) <==> x in s
  {
  }

  /** `used` and `rest` share out `all`. */
  ghost predicate Splits<T>(all: set<T>, used: set<T>, rest: seq<T>) {
    NoDup(rest) && used !! Elems(rest) && used + Elems(rest) == all
  }

  lemma TakeFirst<T>(all: set<T>, used: set<T>, rest: seq<T>)
    requires Splits(all, used, rest) && rest != []
    ensures rest[0] in all && rest[0] !in used
    ensures Splits(all, used + {rest[0]}, rest[1..])
  {
    WithoutElems(rest, 0);
    assert Without(rest, 0) == rest[1..];
    InElems(rest, rest[0]);
  }

  lemma GiveBack<T>(all: set<T>, used: set<T>, rest: seq<T>, x: T)
    requires Splits(all, used, rest) && x in used
    ensures x in all && x !in rest
    ensures Splits(all, used - {x}, [x] + rest)
  {
    InElems(rest, x);
    ConsElems(x, rest);
  }

  lemma NothingUsed<T>(all: seq<T>)
    requires NoDup(all)
    ensures Splits(Elems(all), Elems<T>([]), all) && NoDup<T>([]) && Elems<T>([]) == {}
  {
  }

  function Numbers(n: nat): (s: seq<int>)
    ensures |s| == n && forall i | 0 <= i < n :: s[i] == i
  {
    seq(n, i => i)
  }

  lemma NumbersHold(n: nat)
    ensures forall i :: i in Numbers(n) <==> 0 <= i < n
  {
    forall i | 0 <= i < n
      ensures i in Numbers(n)
    {
      assert Numbers(n)[i] == i;
    }
  }

  /** The numbers below `n`. */
  ghost function Below(n: nat): (s: set<int>)
    ensures forall i :: i in s <==> 0 <= i < n
  {
    NumbersHold(n);
    Elems(Numbers(n))
  }

  lemma BelowCount(n: nat)
    ensures |Below(n)| == n && NoDup(Numbers(n))
  {
    NoDupCount(Numbers(n));
  }
}
