/** Bit operations on integers read as infinite two's-complement strings, and
    the digit-wise facts that let a machine word stand for a slice of one. */
module Bits {
  import opened Digits

  datatype BitFn = Or | And | Xor

  /** The operation on single bits. */
  function Bit1(f: BitFn, x: int, y: int): (r: int)
  {
    match f
    case Or => if x == 1 || y == 1 then 1 else 0
    case And => if x == 1 && y == 1 then 1 else 0
    case Xor => if x == y then 0 else 1
  }

  function Mag(x: int): nat { if x >= 0 then x else -x - 1 }

  /** The operation on whole integers: bit by bit, with the sign repeated forever. */
  function BitOp(f: BitFn, x: int, y: int): (r: int)
    decreases Mag(x) + Mag(y)
  {
    if Mag(x) == 0 && Mag(y) == 0 then -Bit1(f, -x, -y)
    else 2 * BitOp(f, x / 2, y / 2) + Bit1(f, x % 2, y % 2)
  }

  /** Bit k of the two's-complement string of x. */
  function Bit(x: int, k: nat): int { (x / Pow(2, k)) % 2 }

  /** Halving first, then dividing by p, is dividing by 2p. */
  lemma HalveThenDiv(x: int, p: int)
    requires p > 0
    ensures x / (2 * p) == (x / 2) / p
    ensures x % (2 * p) == 2 * ((x / 2) % p) + x % 2
  {
    var q, r := (x / 2) / p, (x / 2) % p;
    assert x == (2 * p) * q + (2 * r + x % 2) by { MulAssoc(2, p, q); }
    DivModUnique(x, 2 * p, q, 2 * r + x % 2);
  }

  lemma BitOpHalves(f: BitFn, x: int, y: int)
    ensures BitOp(f, x, y) / 2 == BitOp(f, x / 2, y / 2)
    ensures BitOp(f, x, y) % 2 == Bit1(f, x % 2, y % 2)
  {}

  /** BitOp is characterised by its bits: each is the operation on the operands' bits. */
  lemma {:induction false} BitOpBit(f: BitFn, x: int, y: int, k: nat)
    ensures Bit(BitOp(f, x, y), k) == Bit1(f, Bit(x, k), Bit(y, k))
    decreases k
  {
    hide BitOp, Bit1;
    var r := BitOp(f, x, y);
    BitOpHalves(f, x, y);
    if k == 0 {
      assert Pow(2, 0) == 1;
    } else {
      HalveThenDiv(x, Pow(2, k - 1));
      HalveThenDiv(y, Pow(2, k - 1));
      HalveThenDiv(r, Pow(2, k - 1));
      BitOpBit(f, x / 2, y / 2, k - 1);
    }
  }

  /** The bits of -x - 1 are those of x, inverted. */
  lemma {:induction false} NotBit(x: int, k: nat)
    ensures Bit(-x - 1, k) == 1 - Bit(x, k)
  {
    var p := Pow(2, k);
    DivMod(x, p);
    MulDist(p, -(x / p), 1);
    assert -x - 1 == p * (-(x / p) - 1) + (p - 1 - x % p) by { NegMul(p, x / p); }
    DivModUnique(-x - 1, p, -(x / p) - 1, p - 1 - x % p);
  }

  lemma NegMul(p: int, q: int)
    ensures p * -q == -(p * q)
  {}

  /** Two integers with the same bits are equal, so BitOpBit pins BitOp down. */
  lemma {:induction false} BitsDetermine(x: int, y: int)
    requires forall k: nat :: Bit(x, k) == Bit(y, k)
    ensures x == y
    decreases Mag(x) + Mag(y)
  {
    assert Pow(2, 0) == 1;
    assert Bit(x, 0) == Bit(y, 0);
    if Mag(x) == 0 && Mag(y) == 0 {
    } else {
      forall k: nat ensures Bit(x / 2, k) == Bit(y / 2, k) {
        HalveThenDiv(x, Pow(2, k));
        HalveThenDiv(y, Pow(2, k));
        assert Bit(x, k + 1) == Bit(y, k + 1);
      }
      BitsDetermine(x / 2, y / 2);
    }
  }

  lemma {:induction false} BitOpComm(f: BitFn, x: int, y: int)
    ensures BitOp(f, x, y) == BitOp(f, y, x)
    decreases Mag(x) + Mag(y)
  {
    if Mag(x) != 0 || Mag(y) != 0 { BitOpComm(f, x / 2, y / 2); }
  }

  /** Words of k bits stay words of k bits. */
  lemma {:induction false} BitOpRange(f: BitFn, x: int, y: int, k: nat)
    requires 0 <= x < Pow(2, k) && 0 <= y < Pow(2, k)
    ensures 0 <= BitOp(f, x, y) < Pow(2, k)
    decreases k
  {
    if k > 0 {
      BitOpRange(f, x / 2, y / 2, k - 1);
    }
  }

  /** x without its low k bits, and those bits, peeled one at a time. */
  function High(x: int, k: nat): int
    decreases k
  { if k == 0 then x else High(x / 2, k - 1) }

  function Low(x: int, k: nat): int
    decreases k
  { if k == 0 then 0 else 2 * Low(x / 2, k - 1) + x % 2 }

  lemma {:induction false} HighLow(x: int, k: nat)
    ensures x == Low(x, k) + Pow(2, k) * High(x, k)
    ensures 0 <= Low(x, k) < Pow(2, k)
    decreases k
  {
    if k > 0 {
      HighLow(x / 2, k - 1);
      MulAssoc(2, Pow(2, k - 1), High(x, k));
    }
  }

  lemma HighLowUnique(x0: int, x1: int, k: nat)
    requires 0 <= x0 < Pow(2, k)
    ensures Low(x0 + Pow(2, k) * x1, k) == x0 && High(x0 + Pow(2, k) * x1, k) == x1
  {
    var x := x0 + Pow(2, k) * x1;
    HighLow(x, k);
    RemainderUnique(Pow(2, k), x1, x0, High(x, k), Low(x, k));
  }

  lemma BitOpDouble(f: BitFn, x: int, i: int, y: int, j: int)
    requires 0 <= i < 2 && 0 <= j < 2
    ensures BitOp(f, 2 * x + i, 2 * y + j) == 2 * BitOp(f, x, y) + Bit1(f, i, j)
  {
    hide BitOp, Bit1;
    var r := BitOp(f, 2 * x + i, 2 * y + j);
    BitOpHalves(f, 2 * x + i, 2 * y + j);
    assert r == 2 * (r / 2) + r % 2;
  }

  /** The operation acts on the low k bits and on the rest independently. */
  lemma {:induction false} BitOpHigh(f: BitFn, x: int, y: int, k: nat)
    ensures High(BitOp(f, x, y), k) == BitOp(f, High(x, k), High(y, k))
    decreases k
  {
    if k > 0 {
      hide BitOp, Bit1;
      BitOpHalves(f, x, y);
      BitOpHigh(f, x / 2, y / 2, k - 1);
    }
  }

  lemma {:induction false} BitOpLow(f: BitFn, x: int, y: int, k: nat)
    ensures Low(BitOp(f, x, y), k) == BitOp(f, Low(x, k), Low(y, k))
    decreases k
  {
    if k > 0 {
      BitOpLow(f, x / 2, y / 2, k - 1);
      BitOpLowStep(f, x, y, k);
    }
  }

  lemma BitOpLowStep(f: BitFn, x: int, y: int, k: nat)
    requires k > 0
    requires Low(BitOp(f, x / 2, y / 2), k - 1) == BitOp(f, Low(x / 2, k - 1), Low(y / 2, k - 1))
    ensures Low(BitOp(f, x, y), k) == BitOp(f, Low(x, k), Low(y, k))
  {
    hide BitOp, Bit1;
    BitOpHalves(f, x, y);
    BitOpDouble(f, Low(x / 2, k - 1), x % 2, Low(y / 2, k - 1), y % 2);
  }

  lemma BitOpSplit(f: BitFn, x0: int, x1: int, y0: int, y1: int, k: nat)
    requires 0 <= x0 < Pow(2, k) && 0 <= y0 < Pow(2, k)
    ensures BitOp(f, x0 + Pow(2, k) * x1, y0 + Pow(2, k) * y1)
         == BitOp(f, x0, y0) + Pow(2, k) * BitOp(f, x1, y1)
  {
    hide BitOp, Pow, High, Low;
    var x, y := x0 + Pow(2, k) * x1, y0 + Pow(2, k) * y1;
    HighLowUnique(x0, x1, k);
    HighLowUnique(y0, y1, k);
    BitOpHigh(f, x, y, k);
    BitOpLow(f, x, y, k);
    HighLow(BitOp(f, x, y), k);
  }

  /** Or with zero changes nothing. */
  lemma {:induction false} OrZero(x: int)
    ensures BitOp(Or, x, 0) == x
    decreases Mag(x)
  {
    if Mag(x) != 0 { OrZero(x / 2); }
  }

  /** And with zero is zero. */
  lemma {:induction false} AndZero(x: int)
    ensures BitOp(And, 0, x) == 0
    decreases Mag(x)
  {
    if Mag(x) != 0 { AndZero(x / 2); }
  }

  /** Or keeps every bit of both operands. */
  lemma {:induction false} OrAtLeast(x: int, y: int)
    requires x >= 0 && y >= 0
    ensures BitOp(Or, x, y) >= x && BitOp(Or, x, y) >= y
    decreases Mag(x) + Mag(y)
  {
    if x != 0 || y != 0 { OrAtLeast(x / 2, y / 2); }
  }

  /** Or of words that share no bit is their sum. */
  lemma OrDisjoint(hi: int, lo: int, k: nat)
    requires 0 <= lo < Pow(2, k)
    ensures BitOp(Or, hi * Pow(2, k), lo) == hi * Pow(2, k) + lo
    ensures BitOp(Or, lo, hi * Pow(2, k)) == hi * Pow(2, k) + lo
  {
    BitOpSplit(Or, 0, hi, lo, 0, k);
    OrZero(hi);
    OrZero(lo);
    BitOpComm(Or, 0, lo);
    BitOpComm(Or, hi * Pow(2, k), lo);
    assert hi * Pow(2, k) == Pow(2, k) * hi;
  }

  // ---- shifting digits across a word boundary ----

  function Shl(x: int, s: nat): int { x * Pow(2, s) }

  function Shr(x: int, s: nat): int { x / Pow(2, s) }

  /** Shifting a w-bit word left by s: the bits pushed out are its top s bits. */
  lemma ShlSplit(x: int, s: nat, w: nat)
    requires s <= w && 0 <= x < Pow(2, w)
    ensures Shl(x, s) == Pow(2, w) * Shr(x, w - s) + Shl(x % Pow(2, w - s), s)
    ensures 0 <= Shr(x, w - s) < Pow(2, s)
    ensures 0 <= Shl(x % Pow(2, w - s), s) <= Pow(2, w) - Pow(2, s)
  {
    PowAdd(2, s, w - s);
    ShlSplitAlgebra(Pow(2, s), Pow(2, w - s), x);
  }

  lemma ShlSplitAlgebra(p: int, q: int, x: int)
    requires p > 0 && q > 0 && 0 <= x < p * q
    ensures x * p == (p * q) * (x / q) + (x % q) * p
    ensures 0 <= x / q < p
    ensures 0 <= (x % q) * p <= p * q - p
  {
    ShlSplitProduct(p, q, x / q, x % q, x);
    ShlSplitRemainder(p, q, x % q);
    ShlSplitQuotient(p, q, x / q, x % q);
  }

  lemma ShlSplitRemainder(p: int, q: int, b: int)
    requires p > 0 && 0 <= b < q
    ensures 0 <= b * p <= p * q - p
  {
    MulMono(p, b, q - 1);
    MulDist(p, q, 1);
    MulMono(p, 0, b);
  }

  lemma ShlSplitProduct(p: int, q: int, a: int, b: int, x: int)
    requires x == q * a + b
    ensures x * p == (p * q) * a + b * p
  {
    MulDistRight(q * a, b, p);
    MulSwap(q, a, p);
  }

  lemma ShlSplitQuotient(p: int, q: int, a: int, b: int)
    requires p > 0 && q > 0 && 0 <= b < q && 0 <= q * a + b < p * q
    ensures 0 <= a < p
  {
    if a >= p { MulMono(q, p, a); }
    if a < 0 { MulMono(q, a, -1); }
  }

  lemma MulDistRight(x: int, y: int, z: int)
    ensures (x + y) * z == x * z + y * z
  {}

  lemma MulSwap(q: int, a: int, p: int)
    ensures (q * a) * p == (p * q) * a
  {}

  /** (hi << s) | (lo >> (w - s)), stored into a w-bit word. */
  function Funnel(hi: int, lo: int, s: nat, w: nat): int
    requires s <= w
  {
    BitOp(Or, Shl(hi, s), Shr(lo, w - s)) % Pow(2, w)
  }

  lemma FunnelValue(hi: int, lo: int, s: nat, w: nat)
    requires s <= w && 0 <= hi < Pow(2, w) && 0 <= lo < Pow(2, w)
    ensures Funnel(hi, lo, s, w) == Shl(hi % Pow(2, w - s), s) + Shr(lo, w - s)
    ensures 0 <= Funnel(hi, lo, s, w) < Pow(2, w)
  {
    ShlSplit(lo, s, w);
    ShlSplit(hi, s, w);
    OrDisjoint(hi, Shr(lo, w - s), s);
    DivModUnique(Shl(hi, s) + Shr(lo, w - s), Pow(2, w), Shr(hi, w - s), Shl(hi % Pow(2, w - s), s) + Shr(lo, w - s));
  }

  /** The digit below position i, zero at the bottom. */
  function Below(d: seq<int>, i: nat): int
    requires i <= |d|
  {
    if i == 0 then 0 else d[i - 1]
  }

  /** out holds the low |out| digits of d shifted left by s bits. */
  ghost predicate ShiftedLeft(out: seq<int>, d: seq<int>, s: nat, w: nat)
    requires s <= w
  {
    |out| <= |d| &&
    forall i :: 0 <= i < |out| ==> out[i] == Funnel(d[i], Below(d, i), s, w)
  }

  /** The bits that leave position i - 1 for position i. */
  function ShiftedOut(d: seq<int>, i: nat, s: nat, w: nat): int
    requires s <= w && i <= |d|
  {
    Shr(Below(d, i), w - s)
  }

  lemma FunnelCarry(d: seq<int>, i: nat, s: nat, w: nat)
    requires s <= w && i < |d| && InBase(d, Pow(2, w))
    ensures 0 <= Funnel(d[i], Below(d, i), s, w) < Pow(2, w)
    ensures CarryStep(d[i], Pow(2, s), 0, ShiftedOut(d, i, s, w), Funnel(d[i], Below(d, i), s, w),
                      ShiftedOut(d, i + 1, s, w), Pow(2, w))
  {
    hide Funnel;
    FunnelValue(d[i], Below(d, i), s, w);
    ShlSplit(d[i], s, w);
  }

  /** A left shift by funnels multiplies by the power of two, up to the bits that
      leave the top digit. */
  lemma ShiftedLeftValue(out: seq<int>, d: seq<int>, s: nat, w: nat)
    requires s <= w && InBase(d, Pow(2, w)) && ShiftedLeft(out, d, s, w)
    ensures InBase(out, Pow(2, w))
    ensures Val(out, Pow(2, w)) + Pow(Pow(2, w), |out|) * ShiftedOut(d, |out|, s, w)
         == Pow(2, s) * Val(d[..|out|], Pow(2, w))
  {
    hide Val, Pow, Funnel, ShiftedOut, CarryStep;
    var c := seq(|out| + 1, i requires 0 <= i <= |out| => ShiftedOut(d, i, s, w));
    forall i | 0 <= i < |out|
      ensures 0 <= out[i] < Pow(2, w)
      ensures CarryStep(d[i], Pow(2, s), 0, c[i], out[i], c[i + 1], Pow(2, w))
    {
      FunnelCarry(d, i, s, w);
    }
    ShiftedOutBottom(d, s, w);
    var zeros := seq(|out|, _ => 0);
    ValZeros(zeros, Pow(2, w));
    CarryChain(d[..|out|], Pow(2, s), zeros, c, out, Pow(2, w));
  }

  lemma ShiftedOutBottom(d: seq<int>, s: nat, w: nat)
    requires s <= w
    ensures ShiftedOut(d, 0, s, w) == 0
  {
    DivModUnique(0, Pow(2, w - s), 0, 0);
  }

  // ---- right shifts ----

  /** out holds d shifted right by s bits; hi is the digit above the top one. */
  ghost predicate ShiftedRight(out: seq<int>, d: seq<int>, hi: int, s: nat, w: nat)
    requires s <= w
  {
    |out| == |d| &&
    forall i :: 0 <= i < |d| ==> out[i] == Funnel(Above(d, hi, i), d[i], w - s, w)
  }

  function Above(d: seq<int>, hi: int, i: nat): int
    requires i < |d|
  {
    if i + 1 < |d| then d[i + 1] else hi
  }

  lemma FunnelRightCarry(hi: int, lo: int, s: nat, w: nat)
    requires s <= w && 0 <= hi < Pow(2, w) && 0 <= lo < Pow(2, w)
    ensures 0 <= Funnel(hi, lo, w - s, w) < Pow(2, w)
    ensures CarryStep(Funnel(hi, lo, w - s, w), Pow(2, s), 0, lo % Pow(2, s), lo, hi % Pow(2, s), Pow(2, w))
  {
    hide Funnel, Pow;
    FunnelValue(hi, lo, w - s, w);
    PowAdd(2, s, w - s);
    DivMod(lo, Pow(2, s));
    RightAlgebra(Funnel(hi, lo, w - s, w), Pow(2, s), Pow(2, w - s), hi % Pow(2, s), lo / Pow(2, s), lo % Pow(2, s),
      lo);
  }

  lemma RightAlgebra(f: int, p: int, q: int, h: int, a: int, b: int, lo: int)
    requires f == h * q + a && lo == p * a + b
    ensures f * p + b == lo + (p * q) * h
  {
    ShlSplitProduct(p, q, h, a, q * h + a);
  }

  /** A right shift by funnels is the floor of the division by the power of two. */
  lemma ShiftedRightValue(out: seq<int>, d: seq<int>, hi: int, s: nat, w: nat)
    requires s <= w && InBase(d, Pow(2, w)) && 0 <= hi < Pow(2, w) && ShiftedRight(out, d, hi, s, w)
    ensures InBase(out, Pow(2, w))
    ensures Val(d, Pow(2, w)) + Pow(Pow(2, w), |d|) * (hi % Pow(2, s))
         == Pow(2, s) * Val(out, Pow(2, w)) + (if d == [] then hi else d[0]) % Pow(2, s)
  {
    hide Val, Pow, Funnel, CarryStep;
    var c := seq(|d| + 1, i requires 0 <= i <= |d| => (if i < |d| then d[i] else hi) % Pow(2, s));
    forall i | 0 <= i < |d|
      ensures 0 <= out[i] < Pow(2, w)
      ensures CarryStep(out[i], Pow(2, s), 0, c[i], d[i], c[i + 1], Pow(2, w))
    {
      FunnelRightCarry(Above(d, hi, i), d[i], s, w);
    }
    var zeros := seq(|d|, _ => 0);
    ValZeros(zeros, Pow(2, w));
    CarryChain(out, Pow(2, s), zeros, c, d, Pow(2, w));
  }

  // ---- leading zeros ----

  /** Number of leading zero bits of a nonzero 32-bit word: shifting left by it
      brings the top set bit to bit 31. */
  method LeadingZeros32(x: int) returns (n: nat)
    requires 0 < x < 0x1_0000_0000
    ensures n <= 31 && 0x8000_0000 <= Shl(x, n) < 0x1_0000_0000
  {
    hide Shl, Pow;
    var y := x;
    n := 1;
    ShlNone(x);
    ShiftPowers();
    n, y := SkipZeros(x, n, y, 16, 0x1_0000, 0x1_0000);
    n, y := SkipZeros(x, n, y, 8, 0x100, 0x100_0000);
    n, y := SkipZeros(x, n, y, 4, 0x10, 0x1000_0000);
    n, y := SkipZeros(x, n, y, 2, 4, 0x4000_0000);
    ShlMore(x, n - 1, 1, 2);
    n := n - y / 0x8000_0000;
  }

  lemma ShlNone(x: int)
    ensures Shl(x, 0) == x
  {
    assert Pow(2, 0) == 1;
  }

  lemma ShiftPowers()
    ensures Pow(2, 16) == 0x1_0000 && Pow(2, 8) == 0x100 && Pow(2, 4) == 0x10 && Pow(2, 2) == 4 && Pow(2, 1) == 2
  {}

  /** If the top t bits of y are zero, shifts them out; p is the weight of the lowest of them. */
  method SkipZeros(ghost x: int, n: nat, y: int, t: nat, f: int, p: int) returns (n': nat, y': int)
    requires n >= 1 && y == Shl(x, n - 1) && f == Pow(2, t) && f > 0 && p > 0
    requires p <= f * y && 0 <= y < 0x1_0000_0000 && f * p == 0x1_0000_0000
    ensures n' >= 1 && y' == Shl(x, n' - 1) && n <= n' <= n + t
    ensures p <= y' < 0x1_0000_0000
  {
    n', y' := n, y;
    QuotientBound(y, p, 0);
    QuotientBound(y, p, 1);
    if y / p == 0 {
      ShlMore(x, n - 1, t, f);
      MulMono(f, y + 1, p);
      MulDist(f, y, 1);
      n', y' := n + t, f * y;
    }
  }

  lemma ShlMore(x: int, s: nat, t: nat, f: int)
    requires f == Pow(2, t)
    ensures Shl(x, s + t) == f * Shl(x, s)
  {
    hide Pow;
    PowAdd(2, s, t);
    MulAssoc(x, Pow(2, s), Pow(2, t));
  }
}
