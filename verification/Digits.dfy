/** Positional numerals: the value of a little-endian digit sequence in a given
    base, and the laws every carry and borrow loop of the big integers leans on. */
module Digits {

  function Pow(b: nat, n: nat): (p: nat)
    ensures b > 0 ==> p > 0
  {
    if n == 0 then 1 else b * Pow(b, n - 1)
  }

  /** Value of s read as a numeral, least significant digit first. */
  function Val(s: seq<int>, b: nat): int
  {
    if |s| == 0 then 0 else s[0] + b * Val(s[1..], b)
  }

  /** Every element is a digit of base b. */
  predicate InBase(s: seq<int>, b: nat) {
    forall i :: 0 <= i < |s| ==> 0 <= s[i] < b
  }

  // ---- products, one law at a time ----

  /** A product named, so that a proof can hide that it is one. */
  function Times(x: int, y: int): int { x * y }

  lemma MulAssoc(x: int, y: int, z: int)
    ensures x * (y * z) == (x * y) * z
  {}

  lemma MulDist(d: int, x: int, y: int)
    ensures d * (x - y) == d * x - d * y
    ensures d * (x + y) == d * x + d * y
  {}

  lemma MulMono(d: int, x: int, y: int)
    requires 0 <= d && x <= y
    ensures d * x <= d * y
  {}

  lemma MulCompare(d: int, x: int, y: int)
    requires 0 < d
    ensures x <= y <==> d * x <= d * y
    ensures x < y <==> d * x < d * y
  {
    MulDist(d, x, y);
    if x < y { MulMono(d, 1, y - x); MulDist(d, y, x); }
    if x > y { MulMono(d, 1, x - y); }
  }

  lemma MulComm(x: int, y: int)
    ensures x * y == y * x
  {}

  lemma DivMod(x: int, d: int)
    requires d > 0
    ensures x == d * (x / d) + x % d && 0 <= x % d < d
  {}

  /** Euclid's quotient and remainder are the only ones. */
  lemma DivModUnique(x: int, d: int, q: int, r: int)
    requires d > 0 && 0 <= r < d && x == d * q + r
    ensures x / d == q && x % d == r
  {
    RemainderUnique(d, q, r, x / d, x % d);
  }

  lemma RemainderUnique(d: int, q: int, r: int, q': int, r': int)
    requires 0 <= r < d && 0 <= r' < d && d * q + r == d * q' + r'
    ensures q == q' && r == r'
  {
    MulDist(d, q, q');
    if q > q' { MulMono(d, 1, q - q'); }
    if q < q' { MulMono(d, q - q', -1); }
  }

  /** The quotient is the greatest multiplier that fits. */
  lemma QuotientBound(x: int, d: int, q: int)
    requires d > 0
    ensures d * q <= x <==> q <= x / d
  {
    if q <= x / d { MulMono(d, q, x / d); } else { MulMono(d, x / d + 1, q); MulDist(d, x / d, 1); }
  }

  // ---- powers ----

  lemma {:induction false} PowAdd(b: nat, m: nat, n: nat)
    ensures Pow(b, m + n) == Pow(b, m) * Pow(b, n)
  {
    if m > 0 {
      PowAdd(b, m - 1, n);
      assert Pow(b, m + n) == b * Pow(b, m - 1 + n);
      assert Pow(b, m) == b * Pow(b, m - 1);
      hide Pow;
      MulAssoc(b, Pow(b, m - 1), Pow(b, n));
    }
  }

  lemma PowOne(b: nat)
    ensures Pow(b, 1) == b
  {}

  lemma {:induction false} PowMul(b: nat, m: nat, n: nat)
    ensures Pow(Pow(b, m), n) == Pow(b, m * n)
  {
    if n == 0 {
      assert m * n == 0;
    } else {
      PowMul(b, m, n - 1);
      assert Pow(Pow(b, m), n) == Pow(b, m) * Pow(Pow(b, m), n - 1);
      hide Pow;
      MulDist(m, n - 1, 1);
      PowAdd(b, m, m * (n - 1));
    }
  }

  lemma {:induction false} PowMono(b: nat, m: nat, n: nat)
    requires b > 0 && m <= n
    ensures Pow(b, m) <= Pow(b, n)
  {
    hide Pow;
    PowAdd(b, m, n - m);
    MulMono(Pow(b, m), 1, Pow(b, n - m));
  }

  // ---- numerals ----

  /** Splitting a numeral into a low and a high part. */
  lemma {:induction false} ValAppend(s: seq<int>, t: seq<int>, b: nat)
    ensures Val(s + t, b) == Val(s, b) + Pow(b, |s|) * Val(t, b)
  {
    if |s| == 0 {
      assert s + t == t;
    } else {
      assert (s + t)[1..] == s[1..] + t;
      ValAppend(s[1..], t, b);
      assert Val(s + t, b) == s[0] + b * Val(s[1..] + t, b);
      assert Val(s, b) == s[0] + b * Val(s[1..], b);
      assert Pow(b, |s|) == b * Pow(b, |s| - 1);
      hide Val, Pow;
      MulDist(b, Val(s[1..], b), Pow(b, |s| - 1) * Val(t, b));
      MulAssoc(b, Pow(b, |s| - 1), Val(t, b));
    }
  }

  lemma ValSnoc(s: seq<int>, d: int, b: nat)
    ensures Val(s + [d], b) == Val(s, b) + Pow(b, |s|) * d
  {
    ValAppend(s, [d], b);
    assert Val([d], b) == d;
  }

  lemma ValSplit(s: seq<int>, k: nat, b: nat)
    requires k <= |s|
    ensures Val(s, b) == Val(s[..k], b) + Pow(b, k) * Val(s[k..], b)
  {
    assert s == s[..k] + s[k..];
    ValAppend(s[..k], s[k..], b);
  }

  /** The prefix of length k + 1 extends the prefix of length k by one digit. */
  lemma ValStep(s: seq<int>, k: nat, b: nat)
    requires k < |s|
    ensures Val(s[..k + 1], b) == Val(s[..k], b) + Pow(b, k) * s[k]
  {
    assert s[..k + 1] == s[..k] + [s[k]];
    ValSnoc(s[..k], s[k], b);
  }

  lemma {:induction false} ValBound(s: seq<int>, b: nat)
    requires b > 0 && InBase(s, b)
    ensures 0 <= Val(s, b) < Pow(b, |s|)
  {
    if |s| > 0 {
      ValBound(s[1..], b);
      var v, p := Val(s[1..], b), Pow(b, |s| - 1);
      assert Val(s, b) == s[0] + b * v && Pow(b, |s|) == b * p;
      hide Val, Pow;
      MulMono(b, v, p - 1);
      MulDist(b, p, 1);
      MulMono(b, 0, v);
    }
  }

  lemma {:induction false} ValZeros(s: seq<int>, b: nat)
    requires forall i :: 0 <= i < |s| ==> s[i] == 0
    ensures Val(s, b) == 0
  {
    if |s| > 0 { ValZeros(s[1..], b); }
  }

  /** A numeral is determined by its value. */
  lemma {:induction false} ValInjective(s: seq<int>, t: seq<int>, b: nat)
    requires b > 1 && InBase(s, b) && InBase(t, b) && |s| == |t|
    requires Val(s, b) == Val(t, b)
    ensures s == t
  {
    if |s| > 0 {
      RemainderUnique(b, Val(s[1..], b), s[0], Val(t[1..], b), t[0]);
      ValInjective(s[1..], t[1..], b);
      assert s == [s[0]] + s[1..] && t == [t[0]] + t[1..];
    }
  }

  /** One step of a digit loop out := d * p + a with carries: c comes from below,
      c' goes up. A negative p or c makes it a borrow. */
  predicate CarryStep(d: int, p: int, a: int, c: int, out: int, c': int, b: int) {
    d * p + a + c == out + b * c'
  }

  /** Every position of the loop keeps CarryStep. */
  ghost predicate Carries(d: seq<int>, p: int, a: seq<int>, c: seq<int>, out: seq<int>, b: int) {
    |d| == |a| == |out| && |c| == |d| + 1 &&
    forall i :: 0 <= i < |d| ==> CarryStep(d[i], p, a[i], c[i], out[i], c[i + 1], b)
  }

  /** The digits written plus the last carry are the digits read times p, plus the
      addend and the first carry: the one law behind every digit loop below. */
  lemma {:induction false} CarryChain(d: seq<int>, p: int, a: seq<int>, c: seq<int>, out: seq<int>, b: nat)
    requires Carries(d, p, a, c, out, b)
    ensures Val(out, b) + Pow(b, |d|) * c[|d|] == p * Val(d, b) + Val(a, b) + c[0]
  {
    if |d| == 0 {
      assert Pow(b, 0) * c[0] == c[0];
    } else {
      hide CarryStep;
      assert CarryStep(d[0], p, a[0], c[0], out[0], c[1], b);
      CarryChain(d[1..], p, a[1..], c[1..], out[1..], b);
      CarryAlgebra(b, d[0], p, a[0], c[0], out[0], c[1],
                   Val(d[1..], b), Val(a[1..], b), Val(out[1..], b), Pow(b, |d| - 1), c[|d|]);
    }
  }

  lemma CarryAlgebra(b: int, d: int, p: int, a: int, c: int, o: int, c': int,
                     vd: int, va: int, vo: int, bk: int, ck: int)
    requires CarryStep(d, p, a, c, o, c', b)
    requires vo + bk * ck == p * vd + va + c'
    ensures o + b * vo + (b * bk) * ck == p * (d + b * vd) + (a + b * va) + c
  {
    MulAssoc(b, bk, ck);
    MulAssoc(b, p, vd);
    MulDist(b, vo, bk * ck);
    MulDist(b, p * vd + va, c');
    MulDist(b, p * vd, va);
    MulDist(p, d, b * vd);
    MulAssoc(p, b, vd);
  }

  /** A loop that has written its first k digits extends by one. */
  lemma CarriesSnoc(d: seq<int>, p: int, a: seq<int>, c: seq<int>, out: seq<int>, b: int,
                    d': int, a': int, out': int, c': int)
    requires Carries(d, p, a, c, out, b)
    requires CarryStep(d', p, a', c[|d|], out', c', b)
    ensures Carries(d + [d'], p, a + [a'], c + [c'], out + [out'], b)
  {
    hide CarryStep;
  }
}
