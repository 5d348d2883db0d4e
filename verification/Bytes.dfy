/** Byte sequences: little-endian numbers and stores into a memory image. */
module Bytes {
  import opened Powers

  type byte = x: int | 0 <= x < 0x100

  datatype Option<T> = None | Some(value: T)

  /** The number that a little-endian machine reads from `bs`. */
  function LE(bs: seq<byte>): nat {
    if bs == [] then 0 else bs[0] + 0x100 * LE(bs[1..])
  }

  /** The `len` low bytes of `data`, lowest first. */
  function Split(data: nat, len: nat): (bs: seq<byte>)
    ensures |bs| == len
  {
    if len == 0 then [] else [data % 0x100] + Split(data / 0x100, len - 1)
  }

  function Span(len: nat): (s: nat)
    ensures s > 0
  {
    if len == 0 then 1 else 0x100 * Span(len - 1)
  }

  /** The memory image `m` with `bs` stored at `a`. */
  function Store(m: seq<byte>, a: nat, bs: seq<byte>): (r: seq<byte>)
    requires a + |bs| <= |m|
    ensures |r| == |m|
    ensures forall i | 0 <= i < |m| :: r[i] == if a <= i < a + |bs| then bs[i - a] else m[i]
  {
    m[..a] + bs + m[a + |bs|..]
  }

  lemma StoreConcat(m: seq<byte>, a: nat, x: seq<byte>, y: seq<byte>)
    requires a + |x| + |y| <= |m|
    ensures Store(Store(m, a, x), a + |x|, y) == Store(m, a, x + y)
  {
  }

  lemma {:induction false} LESplit(data: nat, len: nat)
    ensures LE(Split(data, len)) == data % Span(len)
  {
    if len > 0 {
      LESplit(data / 0x100, len - 1);
      var d := data / 0x100;
      var q, r := d / Span(len - 1), d % Span(len - 1);
      DivMod(d, Span(len - 1));
      MulAssoc(q, 0x100, Span(len - 1), Span(len));
      MulAssoc(0x100, q, Span(len - 1), q * Span(len - 1));
      DivUnique(data, Span(len), q, 0x100 * r + data % 0x100);
      assert Split(data, len)[1..] == Split(data / 0x100, len - 1);
    }
  }

  lemma {:induction false} LEConcat(a: seq<byte>, b: seq<byte>)
    ensures LE(a + b) == LE(a) + Span(|a|) * LE(b)
  {
    if a == [] {
      assert a + b == b;
    } else {
      LEConcat(a[1..], b);
      assert (a + b)[1..] == a[1..] + b;
      MulAssoc(0x100, Span(|a| - 1), LE(b), Span(|a| - 1) * LE(b));
    }
  }

  /** Splitting what was read gives the bytes back. */
  lemma {:induction false} SplitLE(bs: seq<byte>)
    ensures Split(LE(bs), |bs|) == bs
  {
    if bs != [] {
      SplitLE(bs[1..]);
      assert bs == [bs[0]] + bs[1..];
    }
  }

  lemma {:induction false} LEBound(bs: seq<byte>)
    ensures LE(bs) < Span(|bs|)
  {
    if bs != [] {
      LEBound(bs[1..]);
    }
  }

  /** `data` shifted right by `n` bytes. */
  function Drop(data: nat, n: nat): (d: nat)
    ensures d <= data
  {
    if n == 0 then data else Drop(data / 0x100, n - 1)
  }

  lemma {:induction false} SplitConcat(data: nat, m: nat, n: nat)
    ensures Split(data, m + n) == Split(data, m) + Split(Drop(data, m), n)
  {
    hide Split;
    assert Split(data, 0) == [] by { SplitNothing(data); }
    assert Drop(data, 0) == data;
    hide Drop;
    if m == 0 {
      assert [] + Split(data, n) == Split(data, n);
    } else {
      var d, x := data / 0x100, [data % 0x100];
      SplitConcat(d, m - 1, n);
      Unfold(data, m);
      Unfold(data, m + n);
      assert m + n - 1 == m - 1 + n;
      assert x + (Split(d, m - 1) + Split(Drop(d, m - 1), n)) == x + Split(d, m - 1) + Split(Drop(d, m - 1), n);
    }
  }

  lemma SplitNothing(data: nat)
    ensures Split(data, 0) == []
  {
  }

  lemma Unfold(data: nat, len: nat)
    requires len > 0
    ensures Split(data, len) == [data % 0x100] + Split(data / 0x100, len - 1)
    ensures Drop(data, len) == Drop(data / 0x100, len - 1)
  {
  }

  /** Bytes above the stored ones do not matter. */
  lemma {:induction false} SplitTruncated(data: nat, len: nat, k: nat)
    requires k >= len
    ensures Split(data % Span(k), len) == Split(data, len)
  {
    hide Split, Span;
    if len == 0 {
      SplitNothing(data);
      SplitNothing(data % Span(k));
    } else {
      LowByteApart(data, k);
      Unfold(data % Span(k), len);
      Unfold(data, len);
      SplitTruncated(data / 0x100, len - 1, k - 1);
    }
  }

  /** Reducing modulo `k` bytes keeps the lowest one and reduces the others. */
  lemma LowByteApart(data: nat, k: nat)
    requires k > 0
    ensures data % Span(k) % 0x100 == data % 0x100
    ensures data % Span(k) / 0x100 == data / 0x100 % Span(k - 1)
  {
    var s, whole := Span(k - 1), Span(k);
    assert whole == 0x100 * s;
    hide Span;
    var d := data / 0x100;
    var q, r := d / s, d % s;
    DivMod(d, s);
    MulAssoc(q, 0x100, s, whole);
    MulAssoc(0x100, q, s, q * s);
    DivUnique(data, whole, q, 0x100 * r + data % 0x100);
    DivUnique(0x100 * r + data % 0x100, 0x100, r, data % 0x100);
  }

  /** What was stored is read back. */
  lemma ReadStored(m: seq<byte>, a: nat, data: nat, len: nat)
    requires a + len <= |m|
    ensures LE(Store(m, a, Split(data, len))[a..a + len]) == data % Span(len)
  {
    assert Store(m, a, Split(data, len))[a..a + len] == Split(data, len);
    LESplit(data, len);
  }

  lemma SpanValues()
    ensures Span(2) == 0x1_0000 && Span(4) == 0x1_0000_0000
  {
    assert Span(1) == 0x100;
    assert Span(2) == 0x1_0000;
    assert Span(3) == 0x100_0000;
  }

  // ---------- double words ----------

  function Dword(m: seq<byte>, a: nat): (v: uint32)
    requires a + 4 <= |m|
  {
    (m[a] as int) + 0x100 * (m[a + 1] as int) + 0x1_0000 * (m[a + 2] as int) + 0x100_0000 * (m[a + 3] as int)
  }

  lemma DwordIsLE(m: seq<byte>, a: nat)
    requires a + 4 <= |m|
    ensures Dword(m, a) == LE(m[a..a + 4])
  {
    var s := m[a..a + 4];
    assert s[1..][1..] == s[2..] && s[2..][1..] == s[3..] && s[3..][1..] == [];
    assert LE(s[3..]) == s[3];
    assert LE(s[2..]) == s[2] + 0x100 * LE(s[3..]);
    assert LE(s[1..]) == s[1] + 0x100 * LE(s[2..]);
  }

  lemma DwordStored(m: seq<byte>, a: nat, v: uint32)
    requires a + 4 <= |m|
    ensures Dword(Store(m, a, Split(v, 4)), a) == v
  {
    var m' := Store(m, a, Split(v, 4));
    DwordIsLE(m', a);
    ReadStored(m, a, v, 4);
    assert Span(4) == 0x1_0000_0000;
  }
}
