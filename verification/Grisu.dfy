/** Shortest-digit generation for binary floating point (Grisu3): fixed-point
    numbers f * 2^e with a 64-bit f. */
module Grisu {
  import opened Digits
  import opened Intn
  import opened IntnText

  lemma NoWrap64(x: int)
    requires 0 <= x < 0x1_0000_0000_0000_0000
    ensures Wrap64(x) == x
  {}

  // ---- multiplication ----

  /** The high half of a 128-bit product by 32-bit parts is the product correctly
      rounded, half up; no 64-bit sum wraps. */
  method Multiply(x: int, y: int) returns (f: int)
    requires 0 <= x < 0x1_0000_0000_0000_0000 && 0 <= y < 0x1_0000_0000_0000_0000
    ensures f == (Times(x, y) + 0x8000_0000_0000_0000) / 0x1_0000_0000_0000_0000
    ensures 0 <= f < 0x1_0000_0000_0000_0000
    ensures 0x8000_0000_0000_0000 <= x && 0x8000_0000_0000_0000 <= y ==> 0x4000_0000_0000_0000 <= f
  {
    hide Wrap64, Times;
    var a, b := x / 0x1_0000_0000, x % 0x1_0000_0000;
    var c, d := y / 0x1_0000_0000, y % 0x1_0000_0000;
    PartsFit(a, c);
    PartsFit(b, c);
    PartsFit(a, d);
    PartsFit(b, d);
    var ac, bc, ad, bd := Wrap64(a * c), Wrap64(b * c), Wrap64(a * d), Wrap64(b * d);
    var tmp := Wrap64(bd / 0x1_0000_0000 + ad % 0x1_0000_0000 + bc % 0x1_0000_0000);
    NoWrap64(bd / 0x1_0000_0000 + ad % 0x1_0000_0000 + bc % 0x1_0000_0000);
    NoWrap64(tmp + 0x8000_0000);
    tmp := Wrap64(tmp + 0x8000_0000);
    PartsProduct(x, y, a, b, c, d);
    HighHalf(ac, ad, bc, bd, Times(x, y), tmp);
    ProductHigh(x, y);
    NoWrap64(ac + ad / 0x1_0000_0000 + bc / 0x1_0000_0000 + tmp / 0x1_0000_0000);
    f := Wrap64(ac + ad / 0x1_0000_0000 + bc / 0x1_0000_0000 + tmp / 0x1_0000_0000);
  }

  lemma PartsFit(u: int, v: int)
    requires 0 <= u < 0x1_0000_0000 && 0 <= v < 0x1_0000_0000
    ensures Wrap64(u * v) == Times(u, v) && 0 <= Times(u, v) <= 0xFFFF_FFFF * 0xFFFF_FFFF
  {
    MulMono(u, 0, v);
    MulMono(u, v, 0xFFFF_FFFF);
  }

  lemma PartsProduct(x: int, y: int, a: int, b: int, c: int, d: int)
    requires x == a * 0x1_0000_0000 + b && y == c * 0x1_0000_0000 + d
    ensures Times(x, y) ==
            Times(a, c) * 0x1_0000_0000_0000_0000 + (Times(a, d) + Times(b, c)) * 0x1_0000_0000 + Times(b, d)
  {
    MulDist(x, c * 0x1_0000_0000, d);
  }

  lemma HighHalf(ac: int, ad: int, bc: int, bd: int, xy: int, tmp: int)
    requires 0 <= ac && 0 <= ad && 0 <= bc && 0 <= bd
    requires xy == ac * 0x1_0000_0000_0000_0000 + (ad + bc) * 0x1_0000_0000 + bd
    requires tmp == bd / 0x1_0000_0000 + ad % 0x1_0000_0000 + bc % 0x1_0000_0000 + 0x8000_0000
    ensures (xy + 0x8000_0000_0000_0000) / 0x1_0000_0000_0000_0000 ==
            ac + ad / 0x1_0000_0000 + bc / 0x1_0000_0000 + tmp / 0x1_0000_0000
  {
    var r := (tmp % 0x1_0000_0000) * 0x1_0000_0000 + bd % 0x1_0000_0000;
    assert xy + 0x8000_0000_0000_0000 ==
           0x1_0000_0000_0000_0000 * (ac + ad / 0x1_0000_0000 + bc / 0x1_0000_0000 + tmp / 0x1_0000_0000) + r;
    DivModUnique(xy + 0x8000_0000_0000_0000, 0x1_0000_0000_0000_0000,
      ac + ad / 0x1_0000_0000 + bc / 0x1_0000_0000 + tmp / 0x1_0000_0000, r);
  }

  lemma ProductHigh(x: int, y: int)
    requires 0 <= x < 0x1_0000_0000_0000_0000 && 0 <= y < 0x1_0000_0000_0000_0000
    ensures 0 <= (Times(x, y) + 0x8000_0000_0000_0000) / 0x1_0000_0000_0000_0000 < 0x1_0000_0000_0000_0000
    ensures 0x8000_0000_0000_0000 <= x && 0x8000_0000_0000_0000 <= y ==>
              0x4000_0000_0000_0000 <= (Times(x, y) + 0x8000_0000_0000_0000) / 0x1_0000_0000_0000_0000
  {
    if 0x8000_0000_0000_0000 <= x && 0x8000_0000_0000_0000 <= y {
      MulMono(x, 0x8000_0000_0000_0000, y);
      MulMono(0x8000_0000_0000_0000, 0x8000_0000_0000_0000, x);
    }
    MulMono(x, 0, y);
    MulMono(x, y, 0xFFFF_FFFF_FFFF_FFFF);
    MulMono(0xFFFF_FFFF_FFFF_FFFF, x, 0xFFFF_FFFF_FFFF_FFFF);
  }

  // ---- rounding the last digit ----

  /** Last digit of a numeral. */
  function Last(s: string): int
    requires |s| > 0
  {
    DigitValue(s[|s| - 1])
  }

  /** The number rest has moved away from too_high by c steps of tenKappa. */
  ghost predicate Weeded(buffer: string, out: string, rest0: int, rest: int, tenKappa: int, c: int) {
    && |buffer| == |out| > 0 && buffer[..|buffer| - 1] == out[..|out| - 1]
    && c >= 0 && rest == rest0 + Times(tenKappa, c) && Last(out) == Last(buffer) - c
    && '0' <= out[|out| - 1] <= '9'
  }

  /** How far the last digit went down. */
  function Steps(buffer: string, out: string): int {
    if |buffer| == 0 || |out| == 0 then 0 else Last(buffer) - Last(out)
  }

  /** No step back up would bring the number nearer to w + ulp. */
  ghost predicate NotAbove(rest: int, wUp: int, tenKappa: int, c: int) {
    c == 0 || 2 * wUp >= 2 * rest - tenKappa
  }

  /** No step further down would bring it strictly nearer to w - ulp. */
  ghost predicate NotBelow(rest: int, wDown: int, tenKappa: int, delta: int) {
    delta - rest < tenKappa || 2 * wDown <= 2 * rest + tenKappa
  }

  /** A step down would leave the unsafe interval or move away from w + ulp. */
  ghost predicate Stopped(rest: int, wUp: int, tenKappa: int, delta: int) {
    delta - rest < tenKappa || 2 * wUp < 2 * rest + tenKappa
  }

  /** round_weed: moves the last digit down as long as that brings the number nearer
      to w + ulp, and accepts exactly if w - ulp would not want one more step and the
      number is well inside the unsafe interval. No subtraction goes below zero, no sum above 64
      bits, and the last digit never below '0'. */
  method RoundWeed(buffer: string, wpW: int, delta: int, rest0: int, tenKappa: int, ulp: int)
    returns (ok: bool, out: string)
    requires |buffer| > 0 && '0' <= buffer[|buffer| - 1] <= '9'
    requires 0 < ulp && 0 < tenKappa && 0 <= rest0 < delta < 0x1_0000_0000_0000_0000
    requires 2 * ulp <= wpW <= delta - 2 * ulp
    requires delta <= rest0 + Times(tenKappa, Last(buffer))
    ensures var c := Steps(buffer, out); var rest := rest0 + Times(tenKappa, c);
            && Weeded(buffer, out, rest0, rest, tenKappa, c) && rest <= delta
            && NotAbove(rest, wpW - ulp, tenKappa, c) && Stopped(rest, wpW - ulp, tenKappa, delta)
            && (ok <==> 2 * ulp <= rest <= delta - 4 * ulp && NotBelow(rest, wpW + ulp, tenKappa, delta))
  {
    hide Times, Wrap64, Weeded;
    var wUp, wDown := Wrap64(wpW - ulp), Wrap64(wpW + ulp);
    NoWrap64(wpW - ulp);
    NoWrap64(wpW + ulp);
    var r := rest0;
    out := buffer;
    ghost var c := 0;
    WeededNone(buffer, rest0, tenKappa);
    while r < wUp && Wrap64(delta - r) >= tenKappa
          && (Wrap64(r + tenKappa) < wUp || Wrap64(wUp - r) >= Wrap64(Wrap64(r + tenKappa) - wUp))
      invariant rest0 <= r <= delta && Weeded(buffer, out, rest0, r, tenKappa, c)
      invariant NotAbove(r, wUp, tenKappa, c)
      decreases delta - r
    {
      NoWrap64(delta - r);
      NoWrap64(r + tenKappa);
      NoWrap64(wUp - r);
      if r + tenKappa >= wUp { NoWrap64(r + tenKappa - wUp); }
      WeededMore(buffer, out, rest0, r, delta, tenKappa, c);
      out := out[..|out| - 1] + [(out[|out| - 1] as int - 1) as char];
      r := Wrap64(r + tenKappa);
      c := c + 1;
    }
    WeededSteps(buffer, out, rest0, r, tenKappa, c);
    NoWrap64(delta - r);
    if delta - r >= tenKappa {
      NoWrap64(r + tenKappa);
      if r < wUp { NoWrap64(wUp - r); }
      if r + tenKappa >= wUp { NoWrap64(r + tenKappa - wUp); }
      if r < wDown { NoWrap64(wDown - r); }
      if r + tenKappa >= wDown { NoWrap64(r + tenKappa - wDown); }
    }
    if r < wDown && Wrap64(delta - r) >= tenKappa
       && (Wrap64(r + tenKappa) < wDown || Wrap64(wDown - r) > Wrap64(Wrap64(r + tenKappa) - wDown)) {
      return false, out;
    }
    NoWrap64(2 * ulp);
    NoWrap64(4 * ulp);
    NoWrap64(delta - 4 * ulp);
    ok := Wrap64(2 * ulp) <= r && r <= Wrap64(delta - Wrap64(4 * ulp));
  }

  lemma TimesZero(x: int)
    ensures Times(x, 0) == 0
  {}

  lemma WeededNone(buffer: string, rest0: int, tenKappa: int)
    requires |buffer| > 0 && '0' <= buffer[|buffer| - 1] <= '9'
    ensures Weeded(buffer, buffer, rest0, rest0, tenKappa, 0)
  {}

  lemma WeededSteps(buffer: string, out: string, rest0: int, r: int, tenKappa: int, c: int)
    requires Weeded(buffer, out, rest0, r, tenKappa, c)
    ensures c == Steps(buffer, out) && r == rest0 + Times(tenKappa, c)
  {}

  /** One step more, which the last digit has left. */
  lemma WeededMore(buffer: string, out: string, rest0: int, r: int, delta: int, tenKappa: int, c: int)
    requires Weeded(buffer, out, rest0, r, tenKappa, c) && 0 < tenKappa && delta - r >= tenKappa && |buffer| > 0
    requires delta <= rest0 + Times(tenKappa, Last(buffer))
    ensures |out| > 0 && '1' <= out[|out| - 1] <= '9'
    ensures var out' := out[..|out| - 1] + [(out[|out| - 1] as int - 1) as char];
            Weeded(buffer, out', rest0, r + tenKappa, tenKappa, c + 1)
  {
    hide Times;
    DigitLeft(rest0, r, delta, tenKappa, Last(buffer), c);
    var last := out[|out| - 1];
    var down := (last as int - 1) as char;
    assert DigitValue(down) == DigitValue(last) - 1;
  }

  /** A step that stays within delta leaves the last digit at least zero. */
  lemma DigitLeft(rest0: int, r: int, delta: int, tenKappa: int, d: int, c: int)
    requires 0 < tenKappa && r == rest0 + Times(tenKappa, c) && delta - r >= tenKappa
    requires delta <= rest0 + Times(tenKappa, d)
    ensures c < d && Times(tenKappa, c + 1) == Times(tenKappa, c) + tenKappa
  {
    MulDist(tenKappa, c, 1);
    if c >= d { MulMono(tenKappa, d, c); }
  }

  // ---- the starting power of ten ----

  /** pow10_cache */
  function Pow10Cache(i: nat): nat
    requires i <= 10
  {
    if i == 0 then 0 else Pow(10, i - 1)
  }

  /** The estimate of the decimal length of a number of so many bits is at most one
      too large. */
  lemma Guess(bits: nat)
    requires 4 <= bits <= 32
    ensures var g := (bits + 1) * 1233 / 4096 + 1;
            2 <= g <= 10 && Pow(2, bits) <= Pow(10, g) && Pow(10, g - 2) <= Pow(2, bits - 2) < Pow(2, bits)
  {
    PowersOfTen();
    PowersOfTwo();
    hide Pow;
    if bits <= 5 { GuessRange(bits, 4, 5, 2); }
    else if bits <= 8 { GuessRange(bits, 6, 8, 3); }
    else if bits <= 12 { GuessRange(bits, 9, 12, 4); }
    else if bits <= 15 { GuessRange(bits, 13, 15, 5); }
    else if bits <= 18 { GuessRange(bits, 16, 18, 6); }
    else if bits <= 22 { GuessRange(bits, 19, 22, 7); }
    else if bits <= 25 { GuessRange(bits, 23, 25, 8); }
    else if bits <= 28 { GuessRange(bits, 26, 28, 9); }
    else { GuessRange(bits, 29, 32, 10); }
  }

  lemma GuessRange(bits: nat, lo: nat, hi: nat, g: nat)
    requires 4 <= lo <= bits <= hi <= 32 && 2 <= g
    requires (lo + 1) * 1233 / 4096 + 1 == g && (hi + 1) * 1233 / 4096 + 1 == g
    requires Pow(2, hi) <= Pow(10, g) && 4 * Pow(10, g - 2) <= Pow(2, lo)
    ensures (bits + 1) * 1233 / 4096 + 1 == g && Pow(2, bits) <= Pow(10, g)
    ensures Pow(10, g - 2) <= Pow(2, bits - 2) < Pow(2, bits)
  {
    assert Pow(2, bits) == 4 * Pow(2, bits - 2) && Pow(10, g - 2) >= 1;
    hide Pow;
    PowMono(2, bits, hi);
    PowMono(2, lo, bits);
  }

  lemma PowersOfTen()
    ensures Pow(10, 0) == 1 && Pow(10, 1) == 10 && Pow(10, 2) == 100 && Pow(10, 3) == 1000 && Pow(10, 4) == 10000
    ensures Pow(10, 5) == 100000 && Pow(10, 6) == 1000000 && Pow(10, 7) == 10000000 && Pow(10, 8) == 100000000
    ensures Pow(10, 9) == 1000000000 && Pow(10, 10) == 10000000000
  {}

  lemma PowersOfTwo()
    ensures Pow(2, 4) == 16 && Pow(2, 5) == 32 && Pow(2, 6) == 64 && Pow(2, 8) == 256 && Pow(2, 9) == 512
    ensures Pow(2, 12) == 4096 && Pow(2, 13) == 8192 && Pow(2, 15) == 32768 && Pow(2, 16) == 65536
    ensures Pow(2, 18) == 0x4_0000 && Pow(2, 19) == 0x8_0000 && Pow(2, 22) == 0x40_0000 && Pow(2, 23) == 0x80_0000
    ensures Pow(2, 25) == 0x200_0000 && Pow(2, 26) == 0x400_0000 && Pow(2, 28) == 0x1000_0000
    ensures Pow(2, 29) == 0x2000_0000 && Pow(2, 32) == 0x1_0000_0000
  {
    assert Pow(2, 8) == 256;
    assert Pow(2, 16) == 65536;
    assert Pow(2, 24) == 0x100_0000;
    assert Pow(2, 32) == 0x1_0000_0000;
  }

  /** largest_pow10: a power of ten whose tenfold exceeds n, and its exponent plus one;
      not above n if n has at least bits - 1 bits. */
  method LargestPow10(n: int, bits: nat) returns (kappa: int, power: nat)
    requires 4 <= bits <= 32 && 0 <= n < Pow(2, bits)
    ensures 1 <= kappa <= 10 && power == Pow(10, kappa - 1)
    ensures n < Pow(10, kappa) && power < Pow(2, bits)
    ensures Pow(2, bits - 2) <= n ==> power <= n
  {
    Guess(bits);
    hide Pow;
    var guess := (bits + 1) * 1233 / 4096 + 1;
    if n < Pow10Cache(guess) {
      guess := guess - 1;
    }
    power := Pow10Cache(guess);
    kappa := guess;
  }

  // ---- digit generation ----

  /** Scale of the error unit once kappa digits after the point have been produced. */
  function Unit(kappa: int): nat { Pow(10, if kappa < 0 then -kappa else 0) }

  /** Weight of the last digit, in units of 2^-s times the error unit's scale. */
  function Ten(kappa: int, s: nat): nat { Pow(10, if kappa > 0 then kappa else 0) * Pow(2, s) }

  /** The digits and the rest make up too_high. */
  ghost predicate Generated(th: int, buffer: string, kappa: int, s: nat, rest: int) {
    && IsNumeral(buffer, 10) && (forall i :: 0 <= i < |buffer| ==> '0' <= buffer[i] <= '9')
    && Times(th, Unit(kappa)) == Times(Eval(buffer, 10), Ten(kappa, s)) + rest
    && 0 <= rest < Ten(kappa, s)
  }

  /** What an accepted number satisfies: it lies inside the interval with a unit to
      spare on each side, and neither neighbour of the same length is nearer to
      anything within one unit of w. */
  ghost predicate Sound(low: int, w: int, high: int, s: nat, d: int, kappa: int) {
    var u: int, t: int := Unit(kappa), Ten(kappa, s);
    var v := Times(d, t);
    && Times(low + 3, u) <= v <= Times(high - 1, u)
    && (v + t > Times(high + 1, u) || 2 * Times(w + 1, u) <= 2 * v + t)
    && (v - t < Times(low - 1, u) || 2 * Times(w - 1, u) >= 2 * v - t)
  }

  lemma PowTen(k: nat)
    ensures Pow(10, k + 1) == 10 * Pow(10, k)
  {}

  /** Dropping one integral digit: the weight shrinks tenfold. */
  lemma TenStep(kappa: int, s: nat)
    ensures kappa > 0 ==> Ten(kappa, s) == 10 * Ten(kappa - 1, s) && Unit(kappa) == Unit(kappa - 1)
    ensures kappa <= 0 ==> Ten(kappa, s) == Ten(kappa - 1, s) && Unit(kappa - 1) == 10 * Unit(kappa)
    ensures 0 < Unit(kappa) && 0 < Ten(kappa, s)
  {
    if kappa > 0 { PowTen(kappa - 1); } else { PowTen(-kappa); }
    hide Pow;
    MulMono(Pow(2, s), 1, Pow(10, if kappa > 0 then kappa else 0));
    if kappa > 0 { MulAssoc(10, Pow(10, kappa - 1), Pow(2, s)); }
  }

  /** One more digit. */
  lemma GeneratedStep(th: int, buffer: string, kappa: int, s: nat, rest: int, digit: nat, rest': int)
    requires Generated(th, buffer, kappa, s, rest) && digit < 10 && 0 <= rest' < Ten(kappa - 1, s)
    requires kappa > 0 ==> rest == Times(digit, Ten(kappa - 1, s)) + rest'
    requires kappa <= 0 ==> 10 * rest == Times(digit, Ten(kappa - 1, s)) + rest'
    ensures Generated(th, buffer + [DigitChar(digit)], kappa - 1, s, rest')
    ensures |buffer + [DigitChar(digit)]| > 0 && Last(buffer + [DigitChar(digit)]) == digit
  {
    var c := DigitChar(digit);
    assert (buffer + [c])[..|buffer|] == buffer;
    assert Eval(buffer + [c], 10) == Eval(buffer, 10) * 10 + digit;
    TenStep(kappa, s);
    hide Eval, Unit, Ten;
    StepAlgebra(th, Unit(kappa), Unit(kappa - 1), Eval(buffer, 10), Ten(kappa, s), Ten(kappa - 1, s), digit, rest,
      rest', kappa > 0);
  }

  lemma StepAlgebra(th: int, u: int, u': int, e: int, t: int, t': int, d: int, rest: int, rest': int, integral: bool)
    requires Times(th, u) == Times(e, t) + rest
    requires if integral then t == 10 * t' && u == u' && rest == Times(d, t') + rest'
             else t == t' && u' == 10 * u && 10 * rest == Times(d, t') + rest'
    ensures Times(th, u') == Times(e * 10 + d, t') + rest'
  {
    assert (e * 10 + d) * t' == 10 * (e * t') + d * t';
    assert e * (10 * t') == 10 * (e * t');
    assert th * (10 * u) == 10 * (th * u);
  }

  /** The weeded digits are the weeded number. */
  lemma WeededValue(buffer: string, out: string, rest0: int, rest: int, t: int, c: int)
    requires Weeded(buffer, out, rest0, rest, t, c)
    ensures Eval(out, 10) == Eval(buffer, 10) - c
    ensures Times(Eval(buffer, 10), t) + rest0 == Times(Eval(out, 10), t) + rest
  {
    var k := |out| - 1;
    assert Eval(out, 10) == Eval(out[..k], 10) * 10 + Last(out);
    assert Eval(buffer, 10) == Eval(buffer[..k], 10) * 10 + Last(buffer);
    hide Eval;
    MulDist(t, Eval(buffer, 10), c);
    MulComm(t, Eval(buffer, 10));
    MulComm(t, Eval(out, 10));
  }

  lemma Accepted(low: int, w: int, high: int, s: nat, kappa: int, buffer: string, out: string,
                 rest0: int, rest: int, c: int)
    requires Generated(high + 1, buffer, kappa, s, rest0)
    requires Weeded(buffer, out, rest0, rest, Ten(kappa, s), c)
    requires 2 * Unit(kappa) <= rest <= Times(high - low + 2, Unit(kappa)) - 4 * Unit(kappa)
    requires NotAbove(rest, Times(high + 1 - w, Unit(kappa)) - Unit(kappa), Ten(kappa, s), c)
    requires NotBelow(rest, Times(high + 1 - w, Unit(kappa)) + Unit(kappa), Ten(kappa, s),
             Times(high - low + 2, Unit(kappa)))
    ensures Sound(low, w, high, s, Eval(out, 10), kappa)
  {
    hide Eval, Unit, Ten;
    WeededValue(buffer, out, rest0, rest, Ten(kappa, s), c);
    var u := Unit(kappa);
    Spread(low, w, high, u);
    if c == 0 { TimesZero(Ten(kappa, s)); }
    hide Times;
  }

  /** Where the weeding stopped is the only number of that length that can be sound. */
  lemma OnlyCandidate(low: int, w: int, high: int, s: nat, kappa: int, buffer: string, out: string,
                      rest0: int, rest: int, c: int, d: int)
    requires Generated(high + 1, buffer, kappa, s, rest0)
    requires Weeded(buffer, out, rest0, rest, Ten(kappa, s), c)
    requires rest <= Times(high - low + 2, Unit(kappa))
    requires NotAbove(rest, Times(high + 1 - w, Unit(kappa)) - Unit(kappa), Ten(kappa, s), c)
    requires Stopped(rest, Times(high + 1 - w, Unit(kappa)) - Unit(kappa), Ten(kappa, s),
             Times(high - low + 2, Unit(kappa)))
    requires Sound(low, w, high, s, d, kappa)
    ensures 2 * Unit(kappa) <= rest <= Times(high - low + 2, Unit(kappa)) - 4 * Unit(kappa)
    ensures NotBelow(rest, Times(high + 1 - w, Unit(kappa)) + Unit(kappa), Ten(kappa, s),
            Times(high - low + 2, Unit(kappa)))
  {
    hide Eval, Unit, Ten, Times, Generated, Weeded, NotAbove, NotBelow, Stopped;
    WeededRest(high + 1, buffer, out, kappa, s, rest0, rest, c);
    var u, t, e := Unit(kappa), Ten(kappa, s), Eval(out, 10);
    Spread(low, w, high, u);
    Apart(t, d, e);
    OneStopPlace(Times(d, t), Times(e, t), t, u, Times(low, u), Times(w, u), Times(high, u), rest, c);
  }

  /** The rest is what the weeded number lacks to too_high. */
  lemma WeededRest(th: int, buffer: string, out: string, kappa: int, s: nat, rest0: int, rest: int, c: int)
    requires Generated(th, buffer, kappa, s, rest0) && Weeded(buffer, out, rest0, rest, Ten(kappa, s), c)
    ensures 0 < Ten(kappa, s) && 0 < Unit(kappa)
    ensures rest == Times(th, Unit(kappa)) - Times(Eval(out, 10), Ten(kappa, s))
    ensures 0 <= rest && (c == 0 ==> rest < Ten(kappa, s))
  {
    TenStep(kappa, s);
    hide Eval, Unit, Ten;
    WeededValue(buffer, out, rest0, rest, Ten(kappa, s), c);
    MulMono(Ten(kappa, s), 0, c);
    TimesZero(Ten(kappa, s));
  }

  lemma Apart(t: int, d: int, e: int)
    requires t > 0
    ensures Times(d, t) == Times(e, t) || Times(d, t) >= Times(e, t) + t || Times(d, t) <= Times(e, t) - t
  {
    if d > e { Neighbour(t, e + 1, d); Neighbour(t, e, e + 1); }
    if d < e { Neighbour(t, d, e - 1); Neighbour(t, e - 1, e); }
  }

  lemma OneStopPlace(v: int, v0: int, t: int, u: int, low: int, w: int, high: int, rest: int, c: int)
    requires 0 < t && 0 < u && (v == v0 || v >= v0 + t || v <= v0 - t)
    requires rest == high + u - v0 && 0 <= rest <= high - low + 2 * u && (c == 0 ==> rest < t)
    requires NotAbove(rest, high - w, t, c) && Stopped(rest, high - w, t, high - low + 2 * u)
    requires low + 3 * u <= v <= high - u
    requires v + t > high + u || 2 * (w + u) <= 2 * v + t
    requires v - t < low - u || 2 * (w - u) >= 2 * v - t
    ensures 2 * u <= rest <= high - low - 2 * u && NotBelow(rest, high + 2 * u - w, t, high - low + 2 * u)
  {}

  /** The verdict on the digits: accepted exactly if some number of that length is sound. */
  lemma Judged(low: int, w: int, high: int, s: nat, kappa: int, buffer: string, out: string,
               rest0: int, rest: int, c: int, ok: bool)
    requires 1 <= low && Generated(high + 1, buffer, kappa, s, rest0)
    requires Weeded(buffer, out, rest0, rest, Ten(kappa, s), c)
    requires rest <= Times(high - low + 2, Unit(kappa))
    requires NotAbove(rest, Times(high + 1 - w, Unit(kappa)) - Unit(kappa), Ten(kappa, s), c)
    requires Stopped(rest, Times(high + 1 - w, Unit(kappa)) - Unit(kappa), Ten(kappa, s),
             Times(high - low + 2, Unit(kappa)))
    requires ok <==> 2 * Unit(kappa) <= rest <= Times(high - low + 2, Unit(kappa)) - 4 * Unit(kappa)
                     && NotBelow(rest, Times(high + 1 - w, Unit(kappa)) + Unit(kappa), Ten(kappa, s),
                       Times(high - low + 2, Unit(kappa)))
    ensures ok <==> exists d :: Sound(low, w, high, s, d, kappa)
    ensures ok ==> IsNumeral(out, 10) && Sound(low, w, high, s, Eval(out, 10), kappa)
    ensures |out| == |buffer| > 0 && (ok && buffer[0] != '0' ==> out[0] != '0')
  {
    SameLength(buffer, out, rest0, rest, Ten(kappa, s), c);
    GeneratedNumeral(high + 1, buffer, kappa, s, rest0);
    hide Eval, Unit, Ten, Generated, Weeded, NotAbove, NotBelow, Stopped, Times, Sound, IsNumeral;
    if ok {
      Accepted(low, w, high, s, kappa, buffer, out, rest0, rest, c);
      WeededNumeral(buffer, out, rest0, rest, Ten(kappa, s), c);
      LeadingKept(low, w, high, s, kappa, buffer, out, rest0, rest, c);
    } else {
      forall d ensures !Sound(low, w, high, s, d, kappa) {
        if Sound(low, w, high, s, d, kappa) {
          OnlyCandidate(low, w, high, s, kappa, buffer, out, rest0, rest, c, d);
        }
      }
    }
  }

  lemma Spread(low: int, w: int, high: int, u: int)
    ensures Times(high + 1, u) == Times(high, u) + u && Times(high - 1, u) == Times(high, u) - u
    ensures Times(low + 3, u) == Times(low, u) + 3 * u && Times(low - 1, u) == Times(low, u) - u
    ensures Times(w + 1, u) == Times(w, u) + u && Times(w - 1, u) == Times(w, u) - u
    ensures Times(high - low + 2, u) == Times(high, u) - Times(low, u) + 2 * u
    ensures Times(high + 1 - w, u) == Times(high, u) + u - Times(w, u)
  {
    MulDist(u, high, low);
    MulDist(u, high, w);
  }

  /** What both loops keep: digits and rest make up too_high, and the rest is still
      at least the unsafe interval, so another digit is needed. */
  ghost predicate Pending(low: int, high: int, buffer: string, kappa: int, s: nat, rest: int) {
    Generated(high + 1, buffer, kappa, s, rest) && Times(high - low + 2, Unit(kappa)) <= rest
  }

  /** k with the weight of exponent kappa lies in the unsafe interval. */
  ghost predicate Fits(low: int, high: int, s: nat, k: int, kappa: int) {
    Times(low - 1, Unit(kappa)) < Times(k, Ten(kappa, s)) <= Times(high + 1, Unit(kappa))
  }

  /** While another digit is needed, no number as short as the digits so far fits. */
  lemma PendingTooShort(low: int, high: int, buffer: string, kappa: int, s: nat, rest: int, k: int)
    requires Pending(low, high, buffer, kappa, s, rest)
    ensures !Fits(low, high, s, k, kappa)
  {
    TenStep(kappa, s);
    hide Eval, Unit, Ten;
    var t, e := Ten(kappa, s), Eval(buffer, 10);
    Spread(low, low, high, Unit(kappa));
    if k > e { Neighbour(t, e + 1, k); Neighbour(t, e, e + 1); } else { Neighbour(t, k, e); }
    hide Times;
  }

  ghost predicate NoneFits(low: int, high: int, s: nat, kappa: int) {
    forall k :: !Fits(low, high, s, k, kappa)
  }

  lemma PendingNoneFits(low: int, high: int, buffer: string, kappa: int, s: nat, rest: int)
    requires Pending(low, high, buffer, kappa, s, rest)
    ensures NoneFits(low, high, s, kappa)
  {
    hide Pending, Fits;
    forall k ensures !Fits(low, high, s, k, kappa) { PendingTooShort(low, high, buffer, kappa, s, rest, k); }
  }

  /** If nothing of one length fits, nothing shorter does: digit_gen stops at the
      shortest length there is. */
  lemma {:induction false} ShorterNoneFits(low: int, high: int, s: nat, kappa: int, kappa': int)
    requires NoneFits(low, high, s, kappa) && kappa <= kappa'
    ensures NoneFits(low, high, s, kappa')
    decreases kappa' - kappa
  {
    if kappa < kappa' {
      ShorterNoneFits(low, high, s, kappa, kappa' - 1);
      forall k ensures !Fits(low, high, s, k, kappa') {
        assert !Fits(low, high, s, 10 * k, kappa' - 1);
        TenfoldFits(low, high, s, k, kappa');
      }
    }
  }

  lemma TenfoldFits(low: int, high: int, s: nat, k: int, kappa: int)
    ensures Fits(low, high, s, k, kappa) <==> Fits(low, high, s, 10 * k, kappa - 1)
  {
    TenStep(kappa, s);
    hide Unit, Ten;
    var t, t', u, u' := Ten(kappa, s), Ten(kappa - 1, s), Unit(kappa), Unit(kappa - 1);
    TenTimes(k, t');
    TenTimes(u, low - 1);
    TenTimes(u, high + 1);
    assert Times(k, 10 * t') == 10 * Times(k, t');
  }

  lemma TenTimes(x: int, y: int)
    ensures Times(10 * x, y) == 10 * Times(x, y) && Times(y, 10 * x) == 10 * Times(y, x)
  {
    MulAssoc(10, x, y);
    MulComm(y, 10 * x);
    MulComm(y, x);
  }

  /** Boundaries and shift of a legal call. */
  ghost predicate Operands(low: int, w: int, high: int, s: nat) {
    32 <= s <= 60 && 1 <= low < w < high && high + 1 < 0x1_0000_0000_0000_0000
  }

  /** Cutting p1 by div splits the rest by the digit's weight. */
  lemma IntegralSplit(p1: int, p2: int, kappa: int, s: nat, one: int, div: int)
    requires kappa >= 1 && 0 <= p1 < Pow(10, kappa) && 0 <= p2 < one == Pow(2, s) && div == Pow(10, kappa - 1)
    ensures 0 <= p1 / div < 10 && 0 <= p1 % div < div
    ensures Ten(kappa - 1, s) == Times(div, one)
    ensures Times(p1, one) + p2 == Times(p1 / div, Ten(kappa - 1, s)) + (Times(p1 % div, one) + p2)
    ensures 0 <= Times(p1 % div, one) + p2 < Ten(kappa - 1, s)
  {
    PowTen(kappa - 1);
    hide Pow;
    DivMod(p1, div);
    QuotientBound(p1, div, 10);
    QuotientBound(p1, div, 0);
    DigitAlgebra(p1, div, p1 / div, p1 % div, one, p2);
  }

  /** Rounding the digits once they are enough. */
  method Weed(ghost low: int, ghost w: int, ghost high: int, ghost s: nat, ghost kappa: int, buffer: string,
              wpW: int, delta: int, rest: int, tenKappa: int, ulp: int)
    returns (ok: bool, out: string)
    requires 1 <= low && Generated(high + 1, buffer, kappa, s, rest) && |buffer| > 0
    requires tenKappa == Ten(kappa, s) && ulp == Unit(kappa)
    requires delta == Times(high - low + 2, Unit(kappa)) && wpW == Times(high + 1 - w, Unit(kappa))
    requires rest < delta < 0x1_0000_0000_0000_0000 && 2 * ulp <= wpW <= delta - 2 * ulp
    requires delta <= rest + Times(tenKappa, Last(buffer))
    ensures ok <==> exists d :: Sound(low, w, high, s, d, kappa)
    ensures ok ==> IsNumeral(out, 10) && Sound(low, w, high, s, Eval(out, 10), kappa)
    ensures |out| == |buffer| && (ok && buffer[0] != '0' ==> out[0] != '0')
  {
    hide Pow, Eval, Unit, Ten, Sound, Generated, Times, Weeded, NotAbove, NotBelow, Stopped, IsNumeral;
    GeneratedChars(high + 1, buffer, kappa, s, rest);
    UnitPositive(kappa, s);
    ok, out := RoundWeed(buffer, wpW, delta, rest, tenKappa, ulp);
    ghost var c := Steps(buffer, out);
    Judged(low, w, high, s, kappa, buffer, out, rest, rest + Times(tenKappa, c), c, ok);
  }

  lemma UnitPositive(kappa: int, s: nat)
    ensures 0 < Unit(kappa) && 0 < Ten(kappa, s)
  {
    TenStep(kappa, s);
  }

  /** The digit loop before the point. done tells whether rounding decided; otherwise
      all integral digits are out and p2 is what is left. */
  method IntegralDigits(low: int, w: int, high: int, s: nat, p1_0: int, p2: int, kappa0: int, div0: int)
    returns (done: bool, ok: bool, buffer: string, kappa: int)
    requires Operands(low, w, high, s) && 0 <= p2 < Pow(2, s) && Times(p1_0, Pow(2, s)) + p2 == high + 1
    requires 1 <= kappa0 && 0 <= p1_0 < Pow(10, kappa0) && div0 == Pow(10, kappa0 - 1)
    requires Times(div0, Pow(2, s)) < 0x1_0000_0000_0000_0000
    ensures done ==> (ok <==> exists d :: Sound(low, w, high, s, d, kappa)) && NoneFits(low, high, s, kappa + 1)
    ensures done && ok ==> IsNumeral(buffer, 10) && Sound(low, w, high, s, Eval(buffer, 10), kappa)
    ensures !done ==> kappa == 0 && Pending(low, high, buffer, 0, s, p2)
    ensures |buffer| > 0 && |buffer| + kappa == kappa0 && 0 <= kappa
    ensures div0 <= p1_0 && (done ==> ok) ==> buffer[0] != '0'
  {
    StartDigits(low, high, s, p1_0, p2, kappa0);
    hide Pow, Eval, Unit, Ten, Sound, Generated, Times, Wrap64, NoneFits, Fits, Weeded, NotAbove, NotBelow, Stopped,
      IsNumeral;
    var p1, div := p1_0, div0;
    var one := Pow(2, s);
    var unsafe := Wrap64(high + 1 - (low - 1));
    NoWrap64(high - low + 2);
    kappa := kappa0;
    buffer := "";
    while kappa > 0
      invariant 0 <= kappa && 0 <= p1 < Pow(10, kappa)
      invariant kappa > 0 ==> div == Pow(10, kappa - 1) && Times(div, one) < 0x1_0000_0000_0000_0000
      invariant Pending(low, high, buffer, kappa, s, Times(p1, one) + p2)
      invariant |buffer| + kappa == kappa0 && (kappa == kappa0 ==> p1 == p1_0 && div == div0)
      invariant |buffer| > 0 && div0 <= p1_0 ==> buffer[0] != '0'
      decreases kappa
    {
      var digit := p1 / div;
      PendingNoneFits(low, high, buffer, kappa, s, Times(p1, one) + p2);
      IntegralSplit(p1, p2, kappa, s, one, div);
      LeadingDigit(p1, div);
      ghost var whole := Times(p1, one) + p2;
      GeneratedStep(high + 1, buffer, kappa, s, whole, digit, Times(p1 % div, one) + p2);
      UnitIsOne(kappa, low, high, w);
      buffer := buffer + [DigitChar(digit)];
      p1 := p1 % div;
      kappa := kappa - 1;
      NoWrap64(Times(p1, one) + p2);
      var rest := Wrap64(Times(p1, one) + p2);
      if rest < unsafe {
        UnitIsOne(kappa, low, high, w);
        NoWrap64(Times(div, one));
        MulCommTimes(digit, Times(div, one));
        ok, buffer := Weed(low, w, high, s, kappa, buffer, high + 1 - w, unsafe, rest, Wrap64(Times(div, one)), 1);
        done := true;
        return;
      }
      NextDiv(kappa, div, one);
      div := div / 10;
    }
    TimesZeroPow(p1, kappa, one);
    return false, false, buffer, kappa;
  }

  lemma LeadingDigit(p1: int, div: int)
    requires 0 < div && 0 <= p1 / div < 10
    ensures div <= p1 ==> DigitChar(p1 / div) != '0'
  {
    QuotientBound(p1, div, 1);
  }

  /** Weeding leaves no leading zero behind, for a sound number is not zero. */
  lemma LeadingKept(low: int, w: int, high: int, s: nat, kappa: int, buffer: string, out: string, rest0: int, rest: int,
                    c: int)
    requires 1 <= low && Weeded(buffer, out, rest0, rest, Ten(kappa, s), c)
    requires Sound(low, w, high, s, Eval(out, 10), kappa)
    ensures |buffer| == |out| > 0 && (buffer[0] != '0' ==> out[0] != '0')
  {
    if |out| == 1 {
      assert Eval(out, 10) == Last(out);
      TenStep(kappa, s);
      hide Eval, Unit, Ten;
      MulMono(Unit(kappa), 4, low + 3);
      TimesZero(Ten(kappa, s));
      MulCommTimes(0, Ten(kappa, s));
    } else {
      assert out[..|out| - 1][0] == buffer[..|out| - 1][0];
    }
  }

  lemma StartDigits(low: int, high: int, s: nat, p1: int, p2: int, kappa: int)
    requires 1 <= low < high && 0 <= p2 < Pow(2, s) && Times(p1, Pow(2, s)) + p2 == high + 1
    requires kappa >= 1 && 0 <= p1 < Pow(10, kappa)
    ensures Pending(low, high, "", kappa, s, high + 1)
  {
    assert Pow(10, 0) == 1 && Eval("", 10) == 0;
    hide Pow, Eval;
    MulMono(Pow(2, s), p1 + 1, Pow(10, kappa));
    MulDist(Pow(2, s), p1, 1);
  }

  lemma UnitIsOne(kappa: int, low: int, high: int, w: int)
    requires kappa >= 0
    ensures Unit(kappa) == 1
    ensures Times(high - low + 2, Unit(kappa)) == high - low + 2
    ensures Times(high + 1 - w, Unit(kappa)) == high + 1 - w
  {
    assert Pow(10, 0) == 1;
  }

  lemma MulCommTimes(x: int, y: int)
    ensures Times(x, y) == Times(y, x)
  {}

  lemma GeneratedChars(th: int, buffer: string, kappa: int, s: nat, rest: int)
    requires Generated(th, buffer, kappa, s, rest) && |buffer| > 0
    ensures '0' <= buffer[|buffer| - 1] <= '9'
    ensures IsNumeral(buffer, 10) && 0 <= rest < Ten(kappa, s)
  {
    hide Eval;
  }

  lemma SameLength(buffer: string, out: string, rest0: int, rest: int, t: int, c: int)
    requires Weeded(buffer, out, rest0, rest, t, c)
    ensures |out| == |buffer| > 0
  {}

  lemma GeneratedNumeral(th: int, buffer: string, kappa: int, s: nat, rest: int)
    requires Generated(th, buffer, kappa, s, rest)
    ensures IsNumeral(buffer, 10)
  {}

  lemma WeededNumeral(buffer: string, out: string, rest0: int, rest: int, t: int, c: int)
    requires Weeded(buffer, out, rest0, rest, t, c) && IsNumeral(buffer, 10)
    ensures IsNumeral(out, 10)
  {
    forall i | 0 <= i < |out| ensures DigitValue(out[i]) < 10 {
      if i < |out| - 1 { assert out[i] == out[..|out| - 1][i] == buffer[..|out| - 1][i]; }
    }
  }

  lemma NextDiv(kappa: int, div: int, one: int)
    requires kappa >= 0 && div == Pow(10, kappa) && one > 0 && Times(div, one) < 0x1_0000_0000_0000_0000
    ensures kappa > 0 ==> div / 10 == Pow(10, kappa - 1) && Times(div / 10, one) < 0x1_0000_0000_0000_0000
  {
    if kappa > 0 {
      PowTen(kappa - 1);
      hide Pow;
      MulMono(one, div / 10, div);
    }
  }

  lemma TimesZeroPow(p1: int, kappa: int, one: int)
    requires kappa == 0 && 0 <= p1 < Pow(10, kappa)
    ensures Times(p1, one) == 0
  {}

  /** One digit after the point. */
  lemma FractionStep(low: int, w: int, high: int, buffer: string, kappa: int, s: nat, p2: int, unsafe: int, one: int)
    requires Operands(low, w, high, s) && kappa <= 0 && one == Pow(2, s)
    requires Pending(low, high, buffer, kappa, s, p2) && unsafe == Times(high - low + 2, Unit(kappa))
    ensures 0 <= p2 < one <= 0x1000_0000_0000_0000 && Ten(kappa - 1, s) == one
    ensures 0 <= 10 * p2 / one < 10 && 0 <= (10 * p2) % one < one
    ensures Generated(high + 1, buffer + [DigitChar(10 * p2 / one)], kappa - 1, s, (10 * p2) % one)
    ensures Last(buffer + [DigitChar(10 * p2 / one)]) == 10 * p2 / one
    ensures 10 * p2 == Times(one, 10 * p2 / one) + (10 * p2) % one
    ensures Unit(kappa - 1) == 10 * Unit(kappa) && Times(high - low + 2, Unit(kappa - 1)) == 10 * unsafe
    ensures 4 * Unit(kappa) <= unsafe <= p2
    ensures Times(high + 1 - w, Unit(kappa - 1)) <= 10 * unsafe - 2 * Unit(kappa - 1)
    ensures 2 * Unit(kappa - 1) <= Times(high + 1 - w, Unit(kappa - 1))
  {
    TenStep(kappa, s);
    TenStep(kappa - 1, s);
    assert Ten(kappa, s) == one by { assert Pow(10, 0) == 1; }
    OneFits(s);
    hide Pow, Eval, Unit, Ten;
    DivMod(10 * p2, one);
    QuotientBound(10 * p2, one, 10);
    QuotientBound(10 * p2, one, 0);
    MulCommTimes(one, 10 * p2 / one);
    GeneratedStep(high + 1, buffer, kappa, s, p2, 10 * p2 / one, (10 * p2) % one);
    FractionUnits(low, w, high, Unit(kappa), Unit(kappa - 1));
  }

  lemma UnitSmall(kappa: int)
    requires 4 * Unit(kappa) <= 0x1000_0000_0000_0000
    ensures -17 <= kappa
  {
    PowersOfTen();
    PowAdd(10, 10, 8);
    hide Pow;
    if kappa <= -18 { PowMono(10, 18, -kappa); }
  }

  lemma OneFits(s: nat)
    requires 32 <= s <= 60
    ensures 1 <= Pow(2, s) <= 0x1000_0000_0000_0000
    ensures Pow(2, 64 - s) * Pow(2, s) == 0x1_0000_0000_0000_0000
  {
    PowersOfTwo();
    hide Pow;
    PowMono(2, s, 60);
    PowAdd(2, 32, 28);
    PowAdd(2, 32, 32);
    PowAdd(2, 64 - s, s);
  }

  lemma FractionUnits(low: int, w: int, high: int, u: int, u': int)
    requires 1 <= low < w < high && u > 0 && u' == 10 * u
    ensures Times(high - low + 2, u') == 10 * Times(high - low + 2, u) && 4 * u <= Times(high - low + 2, u)
    ensures 2 * u' <= Times(high + 1 - w, u') <= 10 * Times(high - low + 2, u) - 2 * u'
  {
    MulMono(u, 4, high - low + 2);
    MulMono(u', 2, high + 1 - w);
    MulMono(u', high + 1 - w, high - low);
    MulDist(u', high - low, 2);
    assert (high - low + 2) * (10 * u) == 10 * ((high - low + 2) * u);
  }

  /** digit_gen: it succeeds exactly if some number of the final length is sound, and
      then the digits are one, without leading zero if high is the product of
      normalised factors; nothing shorter fits the unsafe interval. */
  method DigitGen(low: int, w: int, high: int, s: nat) returns (ok: bool, buffer: string, kappa: int)
    requires Operands(low, w, high, s)
    ensures ok <==> exists d :: Sound(low, w, high, s, d, kappa)
    ensures ok ==> IsNumeral(buffer, 10) && Sound(low, w, high, s, Eval(buffer, 10), kappa)
    ensures ok && 0x4000_0000_0000_0000 <= high + 1 ==> |buffer| > 0 && buffer[0] != '0'
    ensures NoneFits(low, high, s, kappa + 1)
    ensures -18 <= kappa <= 9 && 1 <= |buffer| <= 10 - kappa
  {
    hide Pow, Eval, Unit, Ten, Sound, Generated, Times, Wrap64, NoneFits, Fits, Weeded, NotAbove, NotBelow, Stopped,
      IsNumeral;
    OneFits(s);
    var one := Pow(2, s);
    var tooHigh := Wrap64(high + 1);
    NoWrap64(high + 1);
    SplitHigh(tooHigh, s);
    var p1, p2 := tooHigh / one, tooHigh % one;
    var div: nat;
    kappa, div := LargestPow10(p1, 64 - s);
    WeightFits(div, s);
    if 0x4000_0000_0000_0000 <= tooHigh { TopBits(tooHigh, s); }
    var done;
    done, ok, buffer, kappa := IntegralDigits(low, w, high, s, p1, p2, kappa, div);
    if done {
      return;
    }
    var unit, unsafe := 1, Wrap64(tooHigh - Wrap64(low - 1));
    NoWrap64(low - 1);
    NoWrap64(high - low + 2);
    UnitIsOne(0, low, high, w);
    while true
      invariant kappa <= 0 && unit == Unit(kappa) && unsafe == Times(high - low + 2, Unit(kappa))
      invariant Pending(low, high, buffer, kappa, s, p2)
      invariant |buffer| > 0 && (0x4000_0000_0000_0000 <= high + 1 ==> buffer[0] != '0')
      invariant |buffer| + kappa <= 10
      decreases one - unsafe
    {
      PendingNoneFits(low, high, buffer, kappa, s, p2);
      FractionStep(low, w, high, buffer, kappa, s, p2, unsafe, one);
      UnitSmall(kappa);
      NoWrap64(10 * p2);
      NoWrap64(10 * unit);
      NoWrap64(10 * unsafe);
      ghost var before := 10 * p2;
      p2, unit, unsafe := Wrap64(10 * p2), Wrap64(10 * unit), Wrap64(10 * unsafe);
      var digit := p2 / one;
      buffer := buffer + [DigitChar(digit)];
      p2 := p2 % one;
      kappa := kappa - 1;
      if p2 < unsafe {
        NoWrap64(Times(high + 1 - w, unit));
        ok, buffer := Weed(low, w, high, s, kappa, buffer, Wrap64(Times(high + 1 - w, unit)), unsafe, p2, one, unit);
        return;
      }
    }
  }

  lemma SplitHigh(th: int, s: nat)
    requires 0 <= th < 0x1_0000_0000_0000_0000 && 32 <= s <= 60
    ensures 0 <= th / Pow(2, s) < Pow(2, 64 - s) && 0 <= th % Pow(2, s) < Pow(2, s)
    ensures Times(th / Pow(2, s), Pow(2, s)) + th % Pow(2, s) == th
  {
    OneFits(s);
    hide Pow;
    DivMod(th, Pow(2, s));
    MulComm(Pow(2, s), th / Pow(2, s));
    MulComm(Pow(2, s), Pow(2, 64 - s));
    QuotientBound(th, Pow(2, s), Pow(2, 64 - s));
    QuotientBound(th, Pow(2, s), 0);
  }

  lemma TopBits(th: int, s: nat)
    requires 32 <= s <= 60 && 0x4000_0000_0000_0000 <= th
    ensures Pow(2, 62 - s) <= th / Pow(2, s)
  {
    OneFits(s);
    PowAdd(2, 62 - s, 2);
    assert Pow(2, 2) == 4;
    hide Pow;
    MulAssoc(4, Pow(2, 62 - s), Pow(2, s));
    MulComm(Pow(2, s), Pow(2, 62 - s));
    QuotientBound(th, Pow(2, s), Pow(2, 62 - s));
  }

  lemma WeightFits(div: int, s: nat)
    requires 32 <= s <= 60 && 0 <= div < Pow(2, 64 - s)
    ensures Times(div, Pow(2, s)) < 0x1_0000_0000_0000_0000
  {
    OneFits(s);
    hide Pow;
    MulComm(div, Pow(2, s));
    MulComm(Pow(2, 64 - s), Pow(2, s));
    MulCompare(Pow(2, s), div, Pow(2, 64 - s));
  }

  // ---- what soundness means ----

  function AbsR(x: real): real { if x < 0.0 then -x else x }

  /** An accepted number is as near to any point within one unit of w as every other
      number of its length in the unsafe interval. */
  lemma SoundIsNearest(low: int, w: int, high: int, s: nat, d: int, kappa: int, k: int, x: real)
    requires Sound(low, w, high, s, d, kappa)
    requires Times(low - 1, Unit(kappa)) <= Times(k, Ten(kappa, s)) <= Times(high + 1, Unit(kappa))
    requires Times(w - 1, Unit(kappa)) as real <= x <= Times(w + 1, Unit(kappa)) as real
    ensures AbsR(Times(d, Ten(kappa, s)) as real - x) <= AbsR(Times(k, Ten(kappa, s)) as real - x)
  {
    TenStep(kappa, s);
    hide Unit, Ten;
    var t, v, v' := Ten(kappa, s), Times(d, Ten(kappa, s)), Times(k, Ten(kappa, s));
    if k > d {
      Neighbour(t, d + 1, k);
      Neighbour(t, d, d + 1);
      hide Times;
      assert v' >= v + t && 2.0 * x <= 2.0 * v as real + t as real;
    } else if k < d {
      Neighbour(t, k, d - 1);
      Neighbour(t, d - 1, d);
      hide Times;
      assert v' <= v - t && 2.0 * x >= 2.0 * v as real - t as real;
    }
  }

  lemma Neighbour(t: int, a: int, b: int)
    requires t > 0 && a <= b
    ensures Times(a, t) <= Times(b, t)
    ensures b == a + 1 ==> Times(b, t) == Times(a, t) + t
  {
    MulMono(t, a, b);
    MulDist(t, a, 1);
  }

  /** It lies strictly between any true boundaries that are within one unit of the
      computed ones. */
  lemma SoundIsInside(low: int, w: int, high: int, s: nat, d: int, kappa: int, lo: real, hi: real)
    requires Sound(low, w, high, s, d, kappa)
    requires lo <= Times(low + 1, Unit(kappa)) as real && Times(high, Unit(kappa)) as real - Unit(kappa) as real < hi
    ensures lo < Times(d, Ten(kappa, s)) as real < hi
  {
    TenStep(kappa, s);
    hide Unit, Ten;
    MulDist(Unit(kappa), low, 3);
    MulDist(Unit(kappa), low, 1);
    MulDist(Unit(kappa), high, 1);
  }
}
