/** Floats to digits with Grisu3: the decimal printed is the shortest that reads back as
    the float, and of that length the nearest to it. */
module Grisu3 {
  import opened Digits
  import opened IntnText
  import opened Grisu
  import opened CachedPowers

  // ---- doubles ----

  /** Bits of the positive infinity: below it, bits are those of the finite doubles from zero up. */
  const INFINITY := 0x7FF0_0000_0000_0000

  function FractionBits(bits: nat): nat { bits % 0x10_0000_0000_0000 }

  function ExponentBits(bits: nat): nat { bits / 0x10_0000_0000_0000 % 2048 }

  /** double2diy_fp: the fraction, with the implicit one. */
  function Fraction(bits: nat): nat {
    if ExponentBits(bits) == 0 then FractionBits(bits) else FractionBits(bits) + 0x10_0000_0000_0000
  }

  /** double2diy_fp: the exponent. */
  function Exponent(bits: nat): int {
    if ExponentBits(bits) == 0 then 1 - 1075 else ExponentBits(bits) - 1075
  }

  function Value(f: int, e: int): real { f as real * RPow(2.0, e) }

  function Double(bits: nat): real { Value(Fraction(bits), Exponent(bits)) }

  function Decimal(d: int, x: int): real { d as real * RPow(10.0, x) }

  /** The lower neighbour is nearer than the upper one. */
  predicate LowerCloser(bits: nat) { FractionBits(bits) == 0 && ExponentBits(bits) != 0 }

  /** Midpoints to the neighbours. */
  function Upper(bits: nat): real { Value(2 * Fraction(bits) + 1, Exponent(bits) - 1) }

  function Lower(bits: nat): real {
    if LowerCloser(bits) then Value(4 * Fraction(bits) - 1, Exponent(bits) - 2)
    else Value(2 * Fraction(bits) - 1, Exponent(bits) - 1)
  }

  lemma Halves(f: int, e: int)
    ensures Value(2 * f, e - 1) == Value(f, e) && Value(4 * f, e - 2) == Value(f, e)
    ensures Value(2 * f + 1, e - 1) == Value(f, e) + Value(1, e - 1) &&
            Value(2 * f - 1, e - 1) == Value(f, e) - Value(1, e - 1)
    ensures Value(4 * f - 1, e - 2) == Value(f, e) - Value(1, e - 2)
    ensures Value(f + 1, e) == Value(f, e) + Value(1, e)
    ensures Value(1, e) == 2.0 * Value(1, e - 1) && Value(1, e - 1) == 2.0 * Value(1, e - 2) && Value(1, e - 2) > 0.0
  {
    RPowStep(2.0, e - 1);
    RPowStep(2.0, e - 2);
    hide RPow;
  }

  /** The next double is one unit of the last place above. */
  lemma NextDouble(bits: nat)
    requires bits + 1 < INFINITY
    ensures Double(bits + 1) == Double(bits) + Value(1, Exponent(bits))
  {
    NextParts(bits);
    hide Fraction, Exponent, Value;
    Halves(Fraction(bits), Exponent(bits));
    Halves(Fraction(bits + 1), Exponent(bits) + 1);
    assert Exponent(bits) + 1 - 1 == Exponent(bits);
  }

  lemma NextParts(bits: nat)
    requires bits + 1 < INFINITY
    ensures (Exponent(bits + 1) == Exponent(bits) && Fraction(bits + 1) == Fraction(bits) + 1)
            || (Exponent(bits + 1) == Exponent(bits) + 1 && 2 * Fraction(bits + 1) == Fraction(bits) + 1)
  {
    var q, r := bits / 0x10_0000_0000_0000, bits % 0x10_0000_0000_0000;
    assert bits == 0x10_0000_0000_0000 * q + r && q < 2047;
    if r + 1 < 0x10_0000_0000_0000 {
      Parts(bits + 1, q, r + 1);
    } else {
      Parts(bits + 1, q + 1, 0);
    }
  }

  lemma Parts(bits: nat, q: nat, r: nat)
    requires bits == 0x10_0000_0000_0000 * q + r && r < 0x10_0000_0000_0000 && q < 2048
    ensures FractionBits(bits) == r && ExponentBits(bits) == q
  {
    DivModUnique(bits, 0x10_0000_0000_0000, q, r);
  }

  /** More bits, a greater double. */
  lemma {:induction false} Increasing(a: nat, b: nat)
    requires a < b < INFINITY
    ensures Double(a + 1) <= Double(b) && Double(a) < Double(b)
    decreases b - a
  {
    hide Double, Value;
    NextDouble(a);
    UlpPositive(Exponent(a));
    if a + 1 < b { Increasing(a + 1, b); }
  }

  lemma UlpPositive(e: int)
    ensures Value(1, e) > 0.0
  {}

  /** Whatever lies strictly between the midpoints is nearer to the double than to any other:
      reading it gives the double back. */
  lemma ReadsBack(bits: nat, other: nat, x: real)
    requires bits < INFINITY && other < INFINITY && other != bits
    requires Lower(bits) < x < Upper(bits)
    ensures AbsR(x - Double(bits)) < AbsR(x - Double(other))
  {
    hide Value, Double, Lower, Upper;
    if bits < other {
      Increasing(bits, other);
      NextDouble(bits);
      UpperIsMiddle(bits);
    } else {
      Increasing(other, bits);
      if other < bits - 1 { Increasing(other, bits - 1); }
      NextDouble(bits - 1);
      LowerIsMiddle(bits);
    }
  }

  lemma UpperIsMiddle(bits: nat)
    ensures 2.0 * Upper(bits) == 2.0 * Double(bits) + Value(1, Exponent(bits)) && Double(bits) < Upper(bits)
  {
    hide Value, Fraction, Exponent;
    Halves(Fraction(bits), Exponent(bits));
  }

  lemma LowerIsMiddle(bits: nat)
    requires 0 < bits < INFINITY
    ensures 2.0 * Double(bits) - Value(1, Exponent(bits - 1)) <= 2.0 * Lower(bits) && Lower(bits) < Double(bits)
  {
    LowerExponent(bits);
    hide Value, Fraction, Exponent;
    Halves(Fraction(bits), Exponent(bits));
  }

  lemma LowerExponent(bits: nat)
    requires 0 < bits < INFINITY
    ensures Exponent(bits - 1) == Exponent(bits) || (LowerCloser(bits) && Exponent(bits - 1) == Exponent(bits) - 1)
  {
    var q, r := bits / 0x10_0000_0000_0000, bits % 0x10_0000_0000_0000;
    assert bits == 0x10_0000_0000_0000 * q + r && q < 2047;
    if r > 0 {
      Parts(bits - 1, q, r - 1);
    } else {
      Parts(bits - 1, q - 1, 0x10_0000_0000_0000 - 1);
    }
  }

  // ---- normalising ----

  /** normalize_diy_fp: shifted by tens and then by ones until the top bit is set. */
  method Normalize(f: int, e: int) returns (nf: int, ne: int, ghost k: nat)
    requires 0 < f < 0x1_0000_0000_0000_0000
    ensures 0x8000_0000_0000_0000 <= nf < 0x1_0000_0000_0000_0000
    ensures nf == f * Pow(2, k) && ne == e - k
  {
    nf, ne, k := f, e, 0;
    assert Pow(2, 0) == 1 && Pow(2, 10) == 1024;
    while nf < 0x40_0000_0000_0000
      invariant 0 < nf < 0x1_0000_0000_0000_0000 && nf == f * Pow(2, k) && ne == e - k
      decreases 0x1_0000_0000_0000_0000 - nf
    {
      Shifted(f, k, 10);
      nf, ne, k := 1024 * nf, ne - 10, k + 10;
    }
    while nf < 0x8000_0000_0000_0000
      invariant 0 < nf < 0x1_0000_0000_0000_0000 && nf == f * Pow(2, k) && ne == e - k
      decreases 0x1_0000_0000_0000_0000 - nf
    {
      Shifted(f, k, 1);
      nf, ne, k := 2 * nf, ne - 1, k + 1;
    }
  }

  lemma Shifted(f: int, k: nat, j: nat)
    ensures f * Pow(2, k + j) == Pow(2, j) * (f * Pow(2, k)) && Pow(2, 1) == 2 && Pow(2, 10) == 1024
  {
    PowAdd(2, k, j);
    MulAssoc(f, Pow(2, k), Pow(2, j));
    MulComm(f * Pow(2, k), Pow(2, j));
  }

  /** A fraction has one normalising shift. */
  lemma OneShift(f: int, j: nat, k: nat)
    requires f > 0 && 0x8000_0000_0000_0000 <= f * Pow(2, j) < 0x1_0000_0000_0000_0000
    requires 0x8000_0000_0000_0000 <= f * Pow(2, k) < 0x1_0000_0000_0000_0000
    ensures j == k
  {
    if j < k { Doubled(f, j, k); }
    if k < j { Doubled(f, k, j); }
  }

  lemma Doubled(f: int, j: nat, k: nat)
    requires f > 0 && j < k
    ensures 2 * (f * Pow(2, j)) <= f * Pow(2, k)
  {
    PowMono(2, j + 1, k);
    Shifted(f, j, 1);
    hide Pow;
    MulMono(f, Pow(2, j + 1), Pow(2, k));
  }

  // ---- scaling ----

  /** The error unit, the weight of the binary point and the power of ten together. */
  ghost function Scale(kappa: int, s: nat, d: int): (g: real)
    ensures g > 0.0
  {
    TenStep(kappa, s);
    Positive3(Unit(kappa) as real, RPow(2.0, s), RPow(10.0, d));
    Unit(kappa) as real * RPow(2.0, s) * RPow(10.0, d)
  }

  lemma Positive3(x: real, y: real, z: real)
    requires x > 0.0 && y > 0.0 && z > 0.0
    ensures x * y * z > 0.0
  {}

  lemma {:induction false} SamePow(b: nat, n: nat)
    requires b > 0
    ensures Pow(b, n) as real == RPow(b as real, n)
  {
    if n > 0 { SamePow(b, n - 1); }
  }

  /** A decimal of the generated length in units of the digit generation. */
  lemma ScaleDecimal(k: int, kappa: int, s: nat, d: int)
    ensures Times(k, Ten(kappa, s)) as real == Decimal(k, kappa - d) * Scale(kappa, s, d)
  {
    TenReal(kappa, s);
    hide Ten, Unit, RPow;
    RPowAdd(10.0, kappa - d, d);
    DecimalAlgebra(k as real, RPow(10.0, kappa - d), RPow(10.0, d), RPow(10.0, kappa), Unit(kappa) as real,
      RPow(2.0, s));
  }

  lemma DecimalAlgebra(k: real, x: real, t: real, xt: real, u: real, w: real)
    requires xt == x * t
    ensures k * (xt * u * w) == (k * x) * (u * w * t)
  {
    Regroup(xt, u, w);
    Regroup(k, xt, u * w);
    Regroup(k, x, t);
    Regroup(k * x, t, u * w);
    assert t * (u * w) == u * w * t;
  }

  lemma TenReal(kappa: int, s: nat)
    ensures Ten(kappa, s) as real == RPow(10.0, kappa) * Unit(kappa) as real * RPow(2.0, s)
  {
    hide Pow, RPow;
    var p, n := if kappa > 0 then kappa else 0, if kappa < 0 then -kappa else 0;
    SamePow(10, p);
    SamePow(10, n);
    SamePow(2, s);
    RPowAdd(10.0, kappa, n);
    assert kappa + n == p;
    assert RPow(10.0, kappa) * Unit(kappa) as real == RPow(10.0, p);
    assert Ten(kappa, s) == Times(Pow(10, p), Pow(2, s));
    hide Ten, Unit, Times;
    CastTimes(Pow(10, p), Pow(2, s));
  }

  /** A scaled product is within one unit of the exact one. */
  lemma WithinOne(x: int, we: int, cf: int, ce: int, d: int, s: nat, r: int)
    requires 0 <= x < 0x1_0000_0000_0000_0000 && IsPower(cf, ce, d) && s == -(we + ce + 64)
    requires r == (Times(x, cf) + 0x8000_0000_0000_0000) / 0x1_0000_0000_0000_0000
    ensures (r - 1) as real < Value(x, we) * (RPow(2.0, s) * RPow(10.0, d)) < (r + 1) as real
  {
    hide RPow;
    RPowAdd(2.0, we, s);
    assert we + s == -ce - 64;
    RPowAdd(2.0, -ce - 64, 64);
    TwoTo64();
    ExactProduct(x as real, RPow(2.0, we), RPow(2.0, s), RPow(2.0, -ce - 64), RPow(2.0, -ce), RPow(10.0, d));
    HalfUnits(x, cf, RPow(10.0, d) * RPow(2.0, -ce));
    Rounded(Times(x, cf), r);
  }

  lemma ExactProduct(x: real, w: real, s: real, a: real, c: real, t: real)
    requires w * s == a && c == a * 18446744073709551616.0
    ensures 18446744073709551616.0 * (x * w * (s * t)) == x * (t * c)
  {
    Regroup(x, w, s * t);
    Regroup(w, s, t);
    Regroup(18446744073709551616.0, x, a * t);
    assert 18446744073709551616.0 * (a * t) == t * c;
  }

  lemma HalfUnits(x: int, cf: int, tau: real)
    requires 0 <= x < 0x1_0000_0000_0000_0000 && -0.5 <= cf as real - tau <= 0.5
    ensures -9223372036854775808.0 < x as real * tau - Times(x, cf) as real < 9223372036854775808.0
  {
    hide Times;
    var y, delta := x as real, tau - cf as real;
    CastTimes(x, cf);
    RealDist(y, tau, cf as real);
    RealMono(y, -0.5, delta);
    RealMono(y, delta, 0.5);
    assert y * delta == y * tau - y * cf as real;
    assert -9223372036854775808.0 < y * -0.5 && y * 0.5 < 9223372036854775808.0;
  }

  lemma CastTimes(x: int, y: int)
    ensures Times(x, y) as real == x as real * y as real
  {}

  lemma RealDist(d: real, x: real, y: real)
    ensures d * (x - y) == d * x - d * y
  {}

  lemma RealMono(d: real, x: real, y: real)
    requires 0.0 <= d && x <= y
    ensures d * x <= d * y
  {}

  lemma Rounded(p: int, r: int)
    requires r == (p + 0x8000_0000_0000_0000) / 0x1_0000_0000_0000_0000
    ensures -9223372036854775808.0 <= 18446744073709551616.0 * r as real - p as real <= 9223372036854775808.0
  {}

  /** The same in the units of the digit generation. */
  lemma InUnits(x: int, we: int, cf: int, ce: int, d: int, s: nat, r: int, kappa: int)
    requires 0 <= x < 0x1_0000_0000_0000_0000 && IsPower(cf, ce, d) && s == -(we + ce + 64)
    requires r == (Times(x, cf) + 0x8000_0000_0000_0000) / 0x1_0000_0000_0000_0000
    ensures Times(r - 1, Unit(kappa)) as real < Value(x, we) * Scale(kappa, s, d) < Times(r + 1, Unit(kappa)) as real
  {
    TenStep(kappa, s);
    hide RPow, Unit, Value, IsPower;
    WithinOne(x, we, cf, ce, d, s, r);
    UnitsTimes(Value(x, we), RPow(2.0, s), RPow(10.0, d), Unit(kappa), r);
  }

  lemma UnitsTimes(v: real, w: real, t: real, u: int, r: int)
    requires u > 0 && (r - 1) as real < v * (w * t) < (r + 1) as real
    ensures Times(r - 1, u) as real < v * (u as real * w * t) < Times(r + 1, u) as real
  {
    Regroup(u as real, w, t);
    Regroup(v, u as real, w * t);
    RealStrict(u as real, (r - 1) as real, v * (w * t));
    RealStrict(u as real, v * (w * t), (r + 1) as real);
  }

  lemma RealStrict(d: real, x: real, y: real)
    requires 0.0 < d
    ensures x < y <==> d * x < d * y
  {}

  lemma StrictRight(x: real, y: real, g: real)
    requires 0.0 < g
    ensures x < y <==> x * g < y * g
  {}

  // ---- what the digits are worth ----

  /** r is x times the cached power, in fixed point with s bits. */
  ghost predicate ScaledTo(x: int, we: int, cf: int, ce: int, d: int, s: nat, r: int) {
    && 0 <= x < 0x1_0000_0000_0000_0000 && IsPower(cf, ce, d) && s == -(we + ce + 64)
    && r == (Times(x, cf) + 0x8000_0000_0000_0000) / 0x1_0000_0000_0000_0000
  }

  lemma InScale(x: int, we: int, cf: int, ce: int, d: int, s: nat, r: int, kappa: int)
    requires ScaledTo(x, we, cf, ce, d, s, r)
    ensures Times(r - 1, Unit(kappa)) as real < Value(x, we) * Scale(kappa, s, d) < Times(r + 1, Unit(kappa)) as real
    ensures Times(r - 1, Unit(kappa)) as real == Times(r, Unit(kappa)) as real - Unit(kappa) as real
  {
    InUnits(x, we, cf, ce, d, s, r, kappa);
    hide Unit;
    MulDist(Unit(kappa), r, 1);
  }

  /** A sound number lies strictly between the exact boundaries. */
  lemma Between(mf: int, wf: int, pf: int, we: int, cf: int, ce: int, mk: int, s: nat,
                low: int, w: int, high: int, d: int, kappa: int)
    requires ScaledTo(mf, we, cf, ce, mk, s, low) && ScaledTo(pf, we, cf, ce, mk, s, high)
    requires Sound(low, w, high, s, d, kappa)
    ensures Value(mf, we) < Decimal(d, kappa - mk) < Value(pf, we)
  {
    hide Value, Decimal, Scale, Sound, Unit, Ten, ScaledTo, Times;
    InScale(mf, we, cf, ce, mk, s, low, kappa);
    InScale(pf, we, cf, ce, mk, s, high, kappa);
    var g := Scale(kappa, s, mk);
    SoundIsInside(low, w, high, s, d, kappa, Value(mf, we) * g, Value(pf, we) * g);
    ScaleDecimal(d, kappa, s, mk);
    StrictRight(Value(mf, we), Decimal(d, kappa - mk), g);
    StrictRight(Decimal(d, kappa - mk), Value(pf, we), g);
  }

  /** A decimal strictly between the exact boundaries is inside the unsafe interval. */
  lemma BetweenFits(mf: int, pf: int, we: int, cf: int, ce: int, mk: int, s: nat, low: int, high: int, k: int,
                    kappa: int)
    requires ScaledTo(mf, we, cf, ce, mk, s, low) && ScaledTo(pf, we, cf, ce, mk, s, high)
    requires Value(mf, we) < Decimal(k, kappa - mk) < Value(pf, we)
    ensures Fits(low, high, s, k, kappa)
  {
    hide Value, Decimal, Scale, Unit, Ten, ScaledTo, Times;
    InScale(mf, we, cf, ce, mk, s, low, kappa);
    InScale(pf, we, cf, ce, mk, s, high, kappa);
    var g := Scale(kappa, s, mk);
    ScaleDecimal(k, kappa, s, mk);
    StrictRight(Value(mf, we), Decimal(k, kappa - mk), g);
    StrictRight(Decimal(k, kappa - mk), Value(pf, we), g);
  }

  /** Of its length, a sound number is nearest to the exact value. */
  lemma Nearest(mf: int, wf: int, pf: int, we: int, cf: int, ce: int, mk: int, s: nat,
                low: int, w: int, high: int, d: int, kappa: int, k: int)
    requires ScaledTo(mf, we, cf, ce, mk, s, low) && ScaledTo(wf, we, cf, ce, mk, s, w) &&
             ScaledTo(pf, we, cf, ce, mk, s, high)
    requires Sound(low, w, high, s, d, kappa)
    requires Value(mf, we) < Decimal(k, kappa - mk) < Value(pf, we)
    ensures AbsR(Decimal(d, kappa - mk) - Value(wf, we)) <= AbsR(Decimal(k, kappa - mk) - Value(wf, we))
  {
    hide Value, Decimal, Scale, Sound, Unit, Ten, ScaledTo, Times, AbsR;
    BetweenFits(mf, pf, we, cf, ce, mk, s, low, high, k, kappa);
    InScale(wf, we, cf, ce, mk, s, w, kappa);
    var g := Scale(kappa, s, mk);
    SoundIsNearest(low, w, high, s, d, kappa, k, Value(wf, we) * g);
    ScaleDecimal(d, kappa, s, mk);
    ScaleDecimal(k, kappa, s, mk);
    NearerScaled(Decimal(d, kappa - mk), Decimal(k, kappa - mk), Value(wf, we), g,
                 Times(d, Ten(kappa, s)) as real, Times(k, Ten(kappa, s)) as real, Value(wf, we) * g);
  }

  lemma NearerScaled(x: real, y: real, z: real, g: real, xg: real, yg: real, zg: real)
    requires g > 0.0 && xg == x * g && yg == y * g && zg == z * g && AbsR(xg - zg) <= AbsR(yg - zg)
    ensures AbsR(x - z) <= AbsR(y - z)
  {
    hide AbsR;
    AbsScaled(x, z, g, xg, zg);
    AbsScaled(y, z, g, yg, zg);
    CancelRight(AbsR(x - z), AbsR(y - z), g, AbsR(xg - zg), AbsR(yg - zg));
  }

  lemma CancelRight(a: real, b: real, g: real, ag: real, bg: real)
    requires g > 0.0 && ag == a * g && bg == b * g && ag <= bg
    ensures a <= b
  {
    StrictRight(b, a, g);
  }

  lemma AbsScaled(x: real, y: real, g: real, xg: real, yg: real)
    requires g > 0.0 && xg == x * g && yg == y * g
    ensures AbsR(xg - yg) == AbsR(x - y) * g
  {
    RealDist(g, x, y);
    StrictRight(x, y, g);
  }

  /** Nothing shorter lies between the exact boundaries. */
  lemma Shorter(mf: int, pf: int, we: int, cf: int, ce: int, mk: int, s: nat, low: int, high: int, kappa: int, k: int,
                x: int)
    requires ScaledTo(mf, we, cf, ce, mk, s, low) && ScaledTo(pf, we, cf, ce, mk, s, high)
    requires NoneFits(low, high, s, kappa + 1) && x > kappa - mk
    ensures !(Value(mf, we) < Decimal(k, x) < Value(pf, we))
  {
    hide Value, Decimal, ScaledTo, Fits;
    if Value(mf, we) < Decimal(k, x) < Value(pf, we) {
      assert x + mk - mk == x;
      BetweenFits(mf, pf, we, cf, ce, mk, s, low, high, k, x + mk);
      ShorterNoneFits(low, high, s, kappa + 1, x + mk);
    }
  }

  // ---- the whole ----

  /** The boundaries as the code has them, with the exponent of the normalised value. */
  ghost predicate Aligned(bits: nat, mf: int, wf: int, pf: int, we: int) {
    && Value(wf, we) == Double(bits) && Value(mf, we) == Lower(bits) && Value(pf, we) == Upper(bits)
    && 0x4000_0000_0000_0000 <= mf && 0x8000_0000_0000_0000 <= wf && mf + 512 <= wf &&
      wf + 512 <= pf <= 0x1_0000_0000_0000_0000 - 1024
  }

  /** What is promised of digits d with exponent x for a double: between the midpoints to its
      neighbours, no decimal with fewer digits there, none of the same length nearer. */
  ghost predicate Shortest(bits: nat, d: int, x: int) {
    && Lower(bits) < Decimal(d, x) < Upper(bits)
    && (forall k, y :: y > x ==> !(Lower(bits) < Decimal(k, y) < Upper(bits)))
    && (forall k :: Lower(bits) < Decimal(k, x) < Upper(bits) ==>
          AbsR(Decimal(d, x) - Double(bits)) <= AbsR(Decimal(k, x) - Double(bits)))
  }

  lemma IsShortest(bits: nat, mf: int, wf: int, pf: int, we: int, cf: int, ce: int, mk: int, s: nat,
                   low: int, w: int, high: int, d: int, kappa: int)
    requires Aligned(bits, mf, wf, pf, we)
    requires ScaledTo(mf, we, cf, ce, mk, s, low) && ScaledTo(wf, we, cf, ce, mk, s, w) &&
             ScaledTo(pf, we, cf, ce, mk, s, high)
    requires Sound(low, w, high, s, d, kappa) && NoneFits(low, high, s, kappa + 1)
    ensures Shortest(bits, d, kappa - mk)
  {
    hide Value, Decimal, ScaledTo, Sound, NoneFits, Double, Lower, Upper, AbsR;
    var x := kappa - mk;
    Between(mf, wf, pf, we, cf, ce, mk, s, low, w, high, d, kappa);
    forall k, y | y > x ensures !(Lower(bits) < Decimal(k, y) < Upper(bits)) {
      Shorter(mf, pf, we, cf, ce, mk, s, low, high, kappa, k, y);
    }
    forall k | Lower(bits) < Decimal(k, x) < Upper(bits)
      ensures AbsR(Decimal(d, x) - Double(bits)) <= AbsR(Decimal(k, x) - Double(bits))
    {
      Nearest(mf, wf, pf, we, cf, ce, mk, s, low, w, high, d, kappa, k);
    }
  }

  /** The shift of the value is one more than that of the upper boundary, which therefore
      has its exponent. */
  lemma SameExponent(f: int, k: nat, kp: nat)
    requires 0 < f < 0x20_0000_0000_0000
    requires 0x8000_0000_0000_0000 <= f * Pow(2, k) < 0x1_0000_0000_0000_0000
    requires 0x8000_0000_0000_0000 <= (2 * f + 1) * Pow(2, kp) < 0x1_0000_0000_0000_0000
    ensures 11 <= k <= 63 && kp == k - 1
  {
    hide Pow;
    ShiftRange(f, k);
    Shifted(f, k - 1, 1);
    TopRoom(f, k);
    OneShift(2 * f + 1, kp, k - 1);
  }

  lemma PowersOf2()
    ensures Pow(2, 1) == 2 && Pow(2, 10) == 1024 && Pow(2, 32) == 0x1_0000_0000
    ensures Pow(2, 64) == 0x1_0000_0000_0000_0000
  {
    PowersOfTwo();
    PowAdd(2, 32, 32);
    assert Pow(2, 10) == 1024;
  }

  lemma ShiftRange(f: int, k: nat)
    requires 0 < f < 0x20_0000_0000_0000
    requires 0x8000_0000_0000_0000 <= f * Pow(2, k) < 0x1_0000_0000_0000_0000
    ensures 11 <= k <= 63
  {
    hide Pow;
    PowersOf2();
    if k <= 10 {
      PowMono(2, k, 10);
      MulMono(f, Pow(2, k), 1024);
    } else if k >= 64 {
      PowMono(2, 64, k);
      MulMono(Pow(2, k), 1, f);
      MulComm(f, Pow(2, k));
    }
  }

  /** A multiple of a power of two below 2^64 leaves room for half of that power. */
  lemma TopRoom(f: int, k: nat)
    requires 0 < f && 11 <= k <= 63 && f * Pow(2, k) < 0x1_0000_0000_0000_0000
    ensures Pow(2, k - 1) >= 1024 && Pow(2, k) == 2 * Pow(2, k - 1)
    ensures (2 * f + 1) * Pow(2, k - 1) == f * Pow(2, k) + Pow(2, k - 1) <= 0x1_0000_0000_0000_0000 - Pow(2, k - 1)
  {
    hide Pow;
    PowersOf2();
    PowAdd(2, k - 1, 1);
    PowMono(2, 10, k - 1);
    PowAdd(2, k, 64 - k);
    RoomAbove(f, Pow(2, k - 1), Pow(2, k), Pow(2, 64 - k));
  }

  lemma RoomAbove(f: int, p: int, pp: int, q: int)
    requires p > 0 && pp == 2 * p && pp * q == 0x1_0000_0000_0000_0000 && f * pp < 0x1_0000_0000_0000_0000
    ensures (2 * f + 1) * p == f * pp + p <= 0x1_0000_0000_0000_0000 - p
  {
    MulComm(f, pp);
    MulCompare(pp, f, q);
    MulMono(pp, f, q - 1);
    MulDist(pp, q, 1);
    MulDist(p, 2 * f, 1);
    MulAssoc(p, 2, f);
  }

  lemma ValueShifted(x: int, y: int, j: nat)
    ensures Value(x * Pow(2, j), y - j) == Value(x, y)
  {
    hide Pow, RPow;
    SamePow(2, j);
    CastTimes(x, Pow(2, j));
    RPowAdd(2.0, j, y - j);
    assert j + (y - j) == y;
    Regroup(x as real, RPow(2.0, j), RPow(2.0, y - j));
  }

  /** Shift of the lower boundary. */
  function LowerShift(bits: nat, k: nat): nat
    requires k >= 2
  {
    if LowerCloser(bits) then k - 2 else k - 1
  }

  function LowerFraction(bits: nat): int {
    if LowerCloser(bits) then 4 * Fraction(bits) - 1 else 2 * Fraction(bits) - 1
  }

  lemma IsAligned(bits: nat, k: nat)
    requires 0 < Fraction(bits) < 0x20_0000_0000_0000 && 11 <= k <= 63
    requires 0x8000_0000_0000_0000 <= Fraction(bits) * Pow(2, k) < 0x1_0000_0000_0000_0000
    ensures Aligned(bits, LowerFraction(bits) * Pow(2, LowerShift(bits, k)), Fraction(bits) * Pow(2, k),
                    (2 * Fraction(bits) + 1) * Pow(2, k - 1), Exponent(bits) - k)
  {
    hide Pow, Value, Fraction, Exponent, LowerCloser;
    var f, e := Fraction(bits), Exponent(bits);
    ValueShifted(f, e, k);
    ValueShifted(2 * f + 1, e - 1, k - 1);
    ValueShifted(2 * f - 1, e - 1, k - 1);
    ValueShifted(4 * f - 1, e - 2, k - 2);
    assert e - 1 - (k - 1) == e - k && e - 2 - (k - 2) == e - k;
    TopRoom(f, k);
    LowRoom(f, k);
  }

  lemma LowRoom(f: int, k: nat)
    requires 0 < f && 11 <= k && 0x8000_0000_0000_0000 <= f * Pow(2, k)
    ensures 0x4000_0000_0000_0000 <= (2 * f - 1) * Pow(2, k - 1) <= f * Pow(2, k) - 512
    ensures 0x4000_0000_0000_0000 <= (4 * f - 1) * Pow(2, k - 2) <= f * Pow(2, k) - 512
  {
    assert Pow(2, k) == 2 * Pow(2, k - 1) && Pow(2, k - 1) == 2 * Pow(2, k - 2) && Pow(2, 9) == 512;
    PowMono(2, 9, k - 2);
    hide Pow;
    LowAlgebra(f, Pow(2, k - 2));
  }

  lemma LowAlgebra(f: int, q: int)
    requires 0 < f && 512 <= q && 0x8000_0000_0000_0000 <= f * (2 * (2 * q))
    ensures 0x4000_0000_0000_0000 <= (2 * f - 1) * (2 * q) <= f * (2 * (2 * q)) - 512
    ensures 0x4000_0000_0000_0000 <= (4 * f - 1) * q <= f * (2 * (2 * q)) - 512
  {
    MulMono(q, 1, f);
    assert (4 * f - 1) * q == 4 * (q * f) - q && (2 * f - 1) * (2 * q) == 4 * (q * f) - 2 * q &&
           f * (2 * (2 * q)) == 4 * (q * f);
  }

  /** Scaling keeps the order, and all three fit the digit generation. */
  lemma ScaledOperands(bits: nat, mf: int, wf: int, pf: int, we: int, cf: int, ce: int, mk: int, s: nat, low: int,
                       w: int, high: int)
    requires Aligned(bits, mf, wf, pf, we) && 32 <= s <= 60
    requires ScaledTo(mf, we, cf, ce, mk, s, low) && ScaledTo(wf, we, cf, ce, mk, s, w) &&
             ScaledTo(pf, we, cf, ce, mk, s, high)
    ensures Operands(low, w, high, s) && 0x4000_0000_0000_0000 <= high + 1
  {
    hide Value, Double, Lower, Upper, RPow;
    FarApart(mf, wf, cf);
    FarApart(wf, pf, cf);
    MulMono(cf, 0x4000_0000_0000_0000, mf);
    MulMono(cf, 0x8000_0000_0000_0000, pf);
    MulMono(cf, pf, 0x1_0000_0000_0000_0000 - 1024);
    MulComm(mf, cf);
    MulComm(pf, cf);
  }

  lemma FarApart(x: int, y: int, cf: int)
    requires x + 512 <= y && 0x8000_0000_0000_0000 <= cf
    ensures Times(x, cf) + 0x1_0000_0000_0000_0000 <= Times(y, cf)
  {
    MulMono(cf, x + 512, y);
    MulDist(cf, x, 512);
    MulComm(x, cf);
    MulComm(y, cf);
  }

  /** What grisu3 hands to the digit generation: value and boundaries before and after
      scaling, and the length it came to. */
  datatype Trace = Trace(mf: int, wf: int, pf: int, we: int, cf: int, ce: int, mk: int, s: nat,
                         low: int, w: int, high: int, kappa: int)

  ghost predicate Traced(bits: nat, t: Trace) {
    && Aligned(bits, t.mf, t.wf, t.pf, t.we) && ScaledTo(t.mf, t.we, t.cf, t.ce, t.mk, t.s, t.low)
    && ScaledTo(t.wf, t.we, t.cf, t.ce, t.mk, t.s, t.w) && ScaledTo(t.pf, t.we, t.cf, t.ce, t.mk, t.s, t.high)
  }

  /** grisu3: for a positive finite double it gives up only if no number of the shortest
      length is sound; else the digits are the shortest that read back as the double, and of
      those the nearest to it. */
  method ShortestDigits(bits: nat, round: real -> real) returns (ok: bool, buffer: string, dExp: int, ghost t: Trace)
    requires bits < 0x1_0000_0000_0000_0000 && Fraction(bits) != 0 && Rounds(round)
    ensures bits >= INFINITY ==> !ok
    ensures bits < INFINITY ==> Traced(bits, t) && (ok <==> exists d :: Sound(t.low, t.w, t.high, t.s, d, t.kappa))
    ensures ok ==> IsNumeral(buffer, 10) && 1 <= |buffer| <= 17 && buffer[0] != '0' && -400 <= dExp <= 400
    ensures ok ==> Shortest(bits, Eval(buffer, 10), dExp)
  {
    hide Pow, Value, RPow, Eval, IsNumeral, Shortest, Sound, NoneFits, Aligned, IsPower, Rounds, Operands, ScaledTo;
    ok, buffer, dExp := false, "", 0;
    var f, e := Fraction(bits), Exponent(bits);
    ghost var k, kp;
    var wf, we;
    wf, we, k := Normalize(f, e);
    var pf, pe;
    pf, pe, kp := Normalize(2 * f + 1, e - 1);
    SameExponent(f, k, kp);
    t := Trace(0, wf, pf, we, 0, 0, 0, 0, 0, 0, 0, 0);
    if bits >= INFINITY { return; }
    var mf, me := LowerFraction(bits), if LowerCloser(bits) then e - 2 else e - 1;
    mf, me := mf * Pow(2, me - pe), pe;
    IsAligned(bits, k);
    var cf, ce, mk := CachedPow(-60 - 64 - we, round);
    Ranges(bits, mf, wf, pf, we, cf, ce, mk);
    var w := Multiply(wf, cf);
    var low := Multiply(mf, cf);
    var high := Multiply(pf, cf);
    var s := -(we + ce + 64);
    Scaling(mf, we, cf, ce, mk, s, low);
    Scaling(wf, we, cf, ce, mk, s, w);
    Scaling(pf, we, cf, ce, mk, s, high);
    ScaledOperands(bits, mf, wf, pf, we, cf, ce, mk, s, low, w, high);
    var kappa;
    ok, buffer, kappa := DigitGen(low, w, high, s);
    t := Trace(mf, wf, pf, we, cf, ce, mk, s, low, w, high, kappa);
    dExp := kappa - mk;
    if ok {
      IsShortest(bits, mf, wf, pf, we, cf, ce, mk, s, low, w, high, Eval(buffer, 10), kappa);
      SeventeenDigits(bits, buffer, dExp);
    }
  }

  lemma Ranges(bits: nat, mf: int, wf: int, pf: int, we: int, cf: int, ce: int, d: int)
    requires Aligned(bits, mf, wf, pf, we) && IsPower(cf, ce, d)
    ensures 0 <= mf < wf < pf < 0x1_0000_0000_0000_0000 && 0 <= cf < 0x1_0000_0000_0000_0000
  {}

  lemma Scaling(x: int, we: int, cf: int, ce: int, d: int, s: nat, r: int)
    requires 0 <= x < 0x1_0000_0000_0000_0000 && IsPower(cf, ce, d) && s == -(we + ce + 64)
    requires r == (Times(x, cf) + 0x8000_0000_0000_0000) / 0x1_0000_0000_0000_0000
    ensures ScaledTo(x, we, cf, ce, d, s, r)
  {}

  /** Reading the digits back gives the double: no other is as near to them. */
  lemma ShortestReadsBack(bits: nat, d: int, x: int, other: nat)
    requires bits < INFINITY && other < INFINITY && other != bits && Shortest(bits, d, x)
    ensures AbsR(Decimal(d, x) - Double(bits)) < AbsR(Decimal(d, x) - Double(other))
  {
    hide Decimal, Lower, Upper, Double;
    ReadsBack(bits, other, Decimal(d, x));
  }

  // ---- how many digits ----

  lemma {:induction false} LeadingWeight(s: string)
    requires |s| > 0 && IsNumeral(s, 10) && s[0] != '0'
    ensures Pow(10, |s| - 1) <= Eval(s, 10)
  {
    var n := |s| - 1;
    if n > 0 {
      LeadingWeight(s[..n]);
      assert DigitValue(s[n]) >= 0 && Pow(10, n) == 10 * Pow(10, n - 1);
    } else {
      assert Eval(s, 10) == DigitValue(s[0]) >= 1;
    }
  }

  /** An interval longer than the weight holds a multiple of it. */
  lemma MultipleInside(a: real, b: real, t: real) returns (k: int)
    requires t > 0.0 && b - a > t
    ensures a < k as real * t < b
  {
    k := (a / t).Floor + 1;
    assert (k - 1) as real <= a / t < k as real;
    StrictRight(a / t, k as real, t);
    StrictRight(a / t, (k - 1) as real, t);
    RealDist(t, k as real, 1.0);
  }

  /** The interval is wide enough for 17 digits: it is more than the sixteenth power of ten
      times narrower than the double is large for none. */
  lemma WideEnough(bits: nat)
    requires bits < INFINITY && 0 < Fraction(bits)
    ensures Upper(bits) < 10000000000000000.0 * (Upper(bits) - Lower(bits))
  {
    FractionRange(bits);
    hide RPow, Fraction, Exponent, Value, LowerCloser;
    var f, e := Fraction(bits), Exponent(bits);
    Halves(f, e);
    var u := Value(1, e - 1);
    Multiples(2 * f + 1, e - 1);
    RealMono(u, (2 * f + 1) as real, if LowerCloser(bits) then 9007199254740993.0 else 18014398509481983.0);
  }

  lemma Multiples(x: int, e: int)
    ensures Value(x, e) == Value(1, e) * x as real
  {}

  lemma FractionRange(bits: nat)
    ensures Fraction(bits) < 0x20_0000_0000_0000 && (LowerCloser(bits) ==> Fraction(bits) == 0x10_0000_0000_0000)
  {}

  lemma DecimalInside(a: real, b: real, x: int) returns (k: int)
    requires b - a > RPow(10.0, x)
    ensures a < Decimal(k, x) < b
  {
    k := MultipleInside(a, b, RPow(10.0, x));
  }

  lemma NarrowerThan(bits: nat, d: int, x: int)
    requires Shortest(bits, d, x)
    ensures Upper(bits) - Lower(bits) <= RPow(10.0, x + 1)
  {
    hide RPow, Lower, Upper, Decimal;
    if Upper(bits) - Lower(bits) > RPow(10.0, x + 1) {
      var k := DecimalInside(Lower(bits), Upper(bits), x + 1);
    }
  }

  /** The shortest digits are at most seventeen. */
  lemma SeventeenDigits(bits: nat, text: string, x: int)
    requires bits < INFINITY && 0 < Fraction(bits) && |text| > 0 && IsNumeral(text, 10) && text[0] != '0'
    requires Shortest(bits, Eval(text, 10), x)
    ensures |text| <= 17
  {
    hide Pow, RPow, Eval, Lower, Upper, Fraction, IsNumeral;
    NarrowerThan(bits, Eval(text, 10), x);
    WideEnough(bits);
    LeadingWeight(text);
    TenTo17();
    RPowStep(10.0, x);
    if |text| >= 18 {
      PowMono(10, 17, |text| - 1);
      TooManyDigits(Eval(text, 10), RPow(10.0, x), RPow(10.0, x + 1), Upper(bits), Lower(bits));
    }
  }

  lemma TooManyDigits(d: int, r: real, r1: real, u: real, l: real)
    requires 100000000000000000 <= d && 0.0 < r && r1 == 10.0 * r && u - l <= r1 && u < 10000000000000000.0 * (u - l)
    ensures u < d as real * r
  {
    RealMono(r, 100000000000000000.0, d as real);
  }

  lemma TenTo17()
    ensures Pow(10, 17) == 100000000000000000
  {
    PowersOfTen();
    PowAdd(10, 9, 8);
  }

  /** A decimal of seventeen digits that is a double correctly rounded. */
  ghost predicate Rounded17(bits: nat, d: int, x: int) {
    && 10000000000000000 <= d < 100000000000000000
    && 2.0 * AbsR(Decimal(d, x) - Double(bits)) <= RPow(10.0, x)
  }

  /** Seventeen digits are enough: such a decimal lies strictly between the midpoints. */
  lemma SeventeenReadsBack(bits: nat, d: int, x: int)
    requires 0 < bits < INFINITY && Rounded17(bits, d, x)
    ensures Lower(bits) < Decimal(d, x) < Upper(bits)
  {
    FractionRange(bits);
    hide RPow, Fraction, Exponent, Value, LowerCloser;
    var f, e := Fraction(bits), Exponent(bits);
    Halves(f, e);
    Multiples(f, e);
    StepIsSmall(f, Value(1, e), d, RPow(10.0, x), Double(bits));
  }

  /** The weight of the last of seventeen digits is less than a unit of the double, and less
      than half a unit if its fraction is the smallest. */
  lemma StepIsSmall(f: int, u: real, d: int, t: real, v: real)
    requires 0 <= f < 0x20_0000_0000_0000 && u > 0.0 && t > 0.0 && 10000000000000000 <= d
    requires v == u * f as real && 2.0 * AbsR(d as real * t - v) <= t
    ensures t < u && (f == 0x10_0000_0000_0000 ==> 2.0 * t < u)
  {
    SeventeenTimes(d as real, t, d as real * t, v);
    FractionTimes(f as real, u, v);
    Linear(t, u, v);
  }

  lemma SeventeenTimes(d: real, t: real, w: real, v: real)
    requires 10000000000000000.0 <= d && t > 0.0 && w == d * t && 2.0 * AbsR(w - v) <= t
    ensures 9999999999999999.5 * t <= v
  {
    RealMono(t, 10000000000000000.0, d);
    assert w == t * d;
  }

  lemma FractionTimes(f: real, u: real, v: real)
    requires 0.0 <= f <= 9007199254740991.0 && u > 0.0 && v == u * f
    ensures v <= 9007199254740991.0 * u
    ensures f == 4503599627370496.0 ==> v == 4503599627370496.0 * u
  {
    RealMono(u, f, 9007199254740991.0);
  }

  lemma Linear(t: real, u: real, v: real)
    requires 0.0 < u && 9999999999999999.5 * t <= v <= 9007199254740991.0 * u
    ensures t < u && (v == 4503599627370496.0 * u ==> 2.0 * t < u)
  {}
}
