/**
 * Bit strings, most significant bit first, and the naturals they denote.
 * Every regrouping and checksum fact in the model is stated over these.
 */
module Bits {

  /** A Go `byte`. */
  type byte = x: int | 0 <= x < 256

  function Pow2(n: nat): (p: nat)
    ensures p >= 1
  {
    if n == 0 then 1 else 2 * Pow2(n - 1)
  }

  lemma Pow2Widths()
    ensures Pow2(5) == 32 && Pow2(8) == 256
  {
    assert Pow2(2) == 4;
    assert Pow2(4) == 16;
  }

  lemma {:induction false} Pow2Add(a: nat, b: nat)
    ensures Pow2(a + b) == Pow2(a) * Pow2(b)
    decreases a
  {
    if a > 0 {
      Pow2Add(a - 1, b);
    }
  }

  lemma {:induction false} Pow2Monotone(a: nat, b: nat)
    requires a <= b
    ensures Pow2(a) <= Pow2(b)
    decreases b
  {
    if a < b {
      Pow2Monotone(a, b - 1);
    }
  }

  lemma Concat3<T>(a: seq<T>, b: seq<T>, c: seq<T>)
    ensures (a + b) + c == a + (b + c)
  {
  }

  lemma Concat3Parts<T>(a: seq<T>, b: seq<T>, c: seq<T>)
    ensures (a + b + c)[..|a|] == a && (a + b + c)[|a| + |b|..] == c
  {
    assert (a + b + c)[..|a|] == a;
    assert (a + b + c)[|a| + |b|..] == c;
  }

  lemma SplitAround<T>(s: seq<T>, k: nat)
    requires k < |s|
    ensures s == s[..k] + [s[k]] + s[k + 1..]
  {
  }

  lemma DivNonNegative(x: nat, d: nat)
    requires d > 0
    ensures 0 <= x / d
  {
  }

  lemma MulNonNegative(x: nat, y: nat)
    ensures 0 <= x * y
  {
  }

  lemma MulAtLeast(d: int, m: int)
    requires d >= 1 && m > 0
    ensures d * m >= m
  {
    assert d * m == (d - 1) * m + m;
  }

  /** Euclidean division is determined by any quotient/remainder pair. */
  lemma DivModUnique(x: int, m: int, q: int, r: int)
    requires m > 0 && 0 <= r < m && x == q * m + r
    ensures x / m == q && x % m == r
  {
    var q', r' := x / m, x % m;
    assert (q - q') * m == r' - r;
    if q > q' {
      MulAtLeast(q - q', m);
    } else if q < q' {
      MulAtLeast(q' - q, m);
    }
  }

  lemma MulMonotone(x: int, y: int, p: int)
    requires x <= y && p >= 0
    ensures x * p <= y * p
  {
    assert y * p - x * p == (y - x) * p;
  }

  /** A number below `2^n` shifted left by `k` with `k` low bits below `2^k` stays below `2^(n+k)`. */
  lemma ShiftBound(hi: nat, lo: nat, n: nat, k: nat)
    requires hi < Pow2(n) && lo < Pow2(k)
    ensures hi * Pow2(k) + lo < Pow2(n + k)
  {
    Pow2Add(n, k);
    MulMonotone(hi + 1, Pow2(n), Pow2(k));
  }

  /** Dropping the low `k` bits of a number below `2^(n+k)` leaves one below `2^n`. */
  lemma DivBound(x: nat, n: nat, k: nat)
    requires x < Pow2(n + k)
    ensures x / Pow2(k) < Pow2(n)
  {
    Pow2Add(n, k);
    var q := x / Pow2(k);
    if q >= Pow2(n) {
      MulMonotone(Pow2(n), q, Pow2(k));
    }
  }

  /** The low `w` bits of `x`, most significant first. */
  function BitsOf(x: nat, w: nat): (bs: seq<bool>)
    ensures |bs| == w
  {
    if w == 0 then [] else BitsOf(x / 2, w - 1) + [x % 2 == 1]
  }

  /** The natural a bit string denotes. */
  function ValueOf(bs: seq<bool>): (v: nat)
    ensures v < Pow2(|bs|)
  {
    if |bs| == 0 then 0
    else 2 * ValueOf(bs[..|bs| - 1]) + (if bs[|bs| - 1] then 1 else 0)
  }

  function Zeros(n: nat): (z: seq<bool>)
    ensures |z| == n && forall i :: 0 <= i < n ==> !z[i]
  {
    seq(n, _ => false)
  }

  predicate AllZero(bs: seq<bool>) {
    forall i :: 0 <= i < |bs| ==> !bs[i]
  }

  /** Pointwise exclusive or of two equally long bit strings. */
  function XorBits(a: seq<bool>, b: seq<bool>): (c: seq<bool>)
    requires |a| == |b|
    ensures |c| == |a| && forall i :: 0 <= i < |c| ==> c[i] == (a[i] != b[i])
  {
    seq(|a|, i requires 0 <= i < |a| => a[i] != b[i])
  }

  /** Writing `w` bits and reading them back gives the number back. */
  lemma {:induction false} ValueOfBitsOf(x: nat, w: nat)
    requires x < Pow2(w)
    ensures ValueOf(BitsOf(x, w)) == x
    decreases w
  {
    if w > 0 {
      var bs := BitsOf(x, w);
      var init := BitsOf(x / 2, w - 1);
      assert bs == init + [x % 2 == 1];
      assert bs[..w - 1] == init;
      ValueOfBitsOf(x / 2, w - 1);
      assert ValueOf(bs) == 2 * ValueOf(init) + x % 2;
    }
  }

  /** Reading a bit string as a number and writing it back gives the string back. */
  lemma {:induction false} BitsOfValueOf(bs: seq<bool>)
    ensures BitsOf(ValueOf(bs), |bs|) == bs
    decreases |bs|
  {
    if |bs| > 0 {
      var n := |bs|;
      var v := ValueOf(bs);
      var init := bs[..n - 1];
      var bit := if bs[n - 1] then 1 else 0;
      assert v == ValueOf(init) * 2 + bit;
      DivModUnique(v, 2, ValueOf(init), bit);
      BitsOfValueOf(init);
      assert BitsOf(v, n) == BitsOf(v / 2, n - 1) + [v % 2 == 1];
      assert bs == init + [bs[n - 1]];
    }
  }

  lemma BitsOfInjective(x: nat, y: nat, w: nat)
    requires x < Pow2(w) && y < Pow2(w) && BitsOf(x, w) == BitsOf(y, w)
    ensures x == y
  {
    ValueOfBitsOf(x, w);
    ValueOfBitsOf(y, w);
  }

  lemma {:induction false} BitsOfZero(w: nat)
    ensures BitsOf(0, w) == Zeros(w)
    decreases w
  {
    if w > 0 {
      BitsOfZero(w - 1);
    }
  }

  lemma {:induction false} ZeroOfBits(bs: seq<bool>)
    requires AllZero(bs)
    ensures ValueOf(bs) == 0
    decreases |bs|
  {
    if |bs| > 0 {
      ZeroOfBits(bs[..|bs| - 1]);
    }
  }

  /** One halving step of splitting a number at bit `k`. */
  lemma HalveSplit(x: nat, k: nat)
    requires k > 0
    ensures x / Pow2(k) == (x / 2) / Pow2(k - 1)
    ensures (x % Pow2(k)) / 2 == (x / 2) % Pow2(k - 1)
    ensures (x % Pow2(k)) % 2 == x % 2
  {
    var p := Pow2(k - 1);
    var q, r := x / 2, x % 2;
    var a, c := q / p, q % p;
    assert x == a * (2 * p) + (2 * c + r);
    DivModUnique(x, 2 * p, a, 2 * c + r);
    DivModUnique(2 * c + r, 2, c, r);
  }

  /** The low `n + k` bits of `x` are its bits above `k` followed by its low `k` bits. */
  lemma {:induction false} BitsOfSplit(x: nat, n: nat, k: nat)
    ensures 0 <= x / Pow2(k)
    ensures BitsOf(x, n + k) == BitsOf(x / Pow2(k), n) + BitsOf(x % Pow2(k), k)
    decreases k
  {
    DivNonNegative(x, Pow2(k));
    if k > 0 {
      HalveSplit(x, k);
      BitsOfSplit(x / 2, n, k - 1);
    }
  }

  /** Bits of `hi * 2^k + lo` are the bits of `hi` followed by the `k` bits of `lo`. */
  lemma BitsOfConcat(hi: nat, lo: nat, n: nat, k: nat)
    requires lo < Pow2(k)
    ensures BitsOf(hi * Pow2(k) + lo, n + k) == BitsOf(hi, n) + BitsOf(lo, k)
  {
    var x := hi * Pow2(k) + lo;
    DivModUnique(x, Pow2(k), hi, lo);
    BitsOfSplit(x, n, k);
  }

  /** Every unit written as `w` bits, in order. */
  function Flatten(xs: seq<nat>, w: nat): (bs: seq<bool>)
    ensures |bs| == |xs| * w
  {
    if |xs| == 0 then [] else BitsOf(xs[0], w) + Flatten(xs[1..], w)
  }

  lemma {:induction false} FlattenConcat(xs: seq<nat>, ys: seq<nat>, w: nat)
    ensures Flatten(xs + ys, w) == Flatten(xs, w) + Flatten(ys, w)
    decreases |xs|
  {
    if |xs| > 0 {
      assert (xs + ys)[0] == xs[0] && (xs + ys)[1..] == xs[1..] + ys;
      FlattenConcat(xs[1..], ys, w);
    } else {
      assert xs + ys == ys;
    }
  }

  predicate Below(xs: seq<nat>, bound: nat) {
    forall i :: 0 <= i < |xs| ==> xs[i] < bound
  }

  /** Units that fit in `w` bits are determined by their flattening. */
  lemma {:induction false} FlattenInjective(xs: seq<nat>, ys: seq<nat>, w: nat)
    requires |xs| == |ys| && Below(xs, Pow2(w)) && Below(ys, Pow2(w))
    requires Flatten(xs, w) == Flatten(ys, w)
    ensures xs == ys
    decreases |xs|
  {
    if |xs| > 0 {
      var fx, fy := Flatten(xs, w), Flatten(ys, w);
      assert fx[..w] == BitsOf(xs[0], w) && fy[..w] == BitsOf(ys[0], w);
      BitsOfInjective(xs[0], ys[0], w);
      assert fx[w..] == Flatten(xs[1..], w) && fy[w..] == Flatten(ys[1..], w);
      FlattenInjective(xs[1..], ys[1..], w);
      assert xs == [xs[0]] + xs[1..] && ys == [ys[0]] + ys[1..];
    }
  }

  lemma MulPred(n: nat, w: nat)
    requires n > 0
    ensures (n - 1) * w == n * w - w
  {
  }

  /** A bit string of `n` units of `w` bits, cut into those units. */
  function Chunk(bs: seq<bool>, w: nat, n: nat): (xs: seq<nat>)
    requires |bs| == n * w
    ensures |xs| == n && Below(xs, Pow2(w))
    decreases n
  {
    if n == 0 then []
    else
      MulPred(n, w);
      [ValueOf(bs[..w])] + Chunk(bs[w..], w, n - 1)
  }

  /** Cutting into units and writing them back out restores the string. */
  lemma {:induction false} FlattenChunk(bs: seq<bool>, w: nat, n: nat)
    requires |bs| == n * w
    ensures Flatten(Chunk(bs, w, n), w) == bs
    decreases n
  {
    if n > 0 {
      MulPred(n, w);
      var head, rest := bs[..w], bs[w..];
      var xs := Chunk(bs, w, n);
      assert xs[0] == ValueOf(head) && xs[1..] == Chunk(rest, w, n - 1);
      BitsOfValueOf(head);
      FlattenChunk(rest, w, n - 1);
      assert bs == head + rest;
    }
  }
}
