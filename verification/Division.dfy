/** Long division of magnitudes in base 65536 (Knuth's Algorithm D), working in
    place on the normalised dividend. */
module Division {
  import opened Digits
  import opened Bits

  type u16 = x: int | 0 <= x < 65536

  /** Digits a divmnu16 buffer holds. */
  const MAX_LEN16: nat := 18

  /** Value of a base-65536 numeral. */
  function V16(s: seq<int>): int { Val(s, 65536) }

  /** 32-bit unsigned arithmetic keeps a value modulo 2^32. */
  function Wrap32(x: int): int { x % 0x1_0000_0000 }

  function Min(x: int, y: int): int { if x <= y then x else y }

  // ---- the quotient digit estimate ----

  /** Quotient of three leading dividend digits by two leading divisor digits. */
  ghost function ThreeByTwo(num: int, ul: int, v1: int, v2: int): int
    requires v1 > 0 && v2 >= 0
  {
    (num * 65536 + ul) / (v1 * 65536 + v2)
  }

  /** The uncorrected two-by-one estimate is never too small. */
  lemma EstimateStart(num: int, ul: int, v1: int, v2: int)
    requires v1 > 0 && v2 >= 0 && 0 <= ul < 65536 && num >= 0
    ensures ThreeByTwo(num, ul, v1, v2) <= num / v1
  {
    var d := v1 * 65536 + v2;
    var q := (num * 65536 + ul) / d;
    QuotientBound(num * 65536 + ul, d, q);
    QuotientBound(num * 65536 + ul, d, 0);
    EstimateProduct(q, v1, v2);
    MulMono(q, 0, v2);
    QuotientBound(num, v1, q);
  }

  lemma EstimateProduct(q: int, v1: int, v2: int)
    ensures (v1 * 65536 + v2) * q == (v1 * q) * 65536 + q * v2
  {}

  /** An estimate of qhat with remainder rhat is refuted by the next digits exactly
      when it exceeds the three-by-two quotient. */
  lemma EstimateTest(num: int, ul: int, v1: int, v2: int, qhat: int, rhat: int)
    requires v1 > 0 && v2 >= 0 && num == v1 * qhat + rhat
    ensures qhat * v2 > 65536 * rhat + ul <==> qhat > ThreeByTwo(num, ul, v1, v2)
  {
    QuotientBound(num * 65536 + ul, v1 * 65536 + v2, qhat);
    EstimateProduct(qhat, v1, v2);
  }

  /** The estimate of Algorithm D: two leading dividend digits over the leading
      divisor digit, corrected while the third and second digit refute it. The
      result is the three-by-two digit quotient, capped at one digit; at most two
      corrections happen. */
  method EstimateDigit(uh: u16, um: u16, ul: u16, v1: u16, v2: u16) returns (qhat: int, ghost fixes: nat)
    requires 32768 <= v1 && uh <= v1
    ensures qhat == Min(65535, ThreeByTwo(uh * 65536 + um, ul, v1, v2))
    ensures fixes <= 2
  {
    hide Wrap32, Min, Estimate, ThreeByTwo;
    ghost var num := uh * 65536 + um;
    qhat := Wrap32(uh * 65536 + um) / v1;
    var rhat := Wrap32(Wrap32(uh * 65536 + um) - Wrap32(qhat * v1));
    EstimateInit(num, ul, v1, v2, qhat, rhat);
    fixes := 0;
    var again := true;
    while again && (qhat >= 65536 || Wrap32(qhat * v2) > Wrap32(65536 * rhat + ul))
      invariant Estimate(num, ul, v1, v2, qhat, rhat)
      invariant fixes * 32768 <= rhat && fixes <= 2
      invariant again <==> rhat < 65536
      decreases qhat
    {
      EstimateStep(num, ul, v1, v2, qhat, rhat);
      qhat := Wrap32(qhat - 1);
      rhat := Wrap32(rhat + v1);
      fixes := fixes + 1;
      again := rhat < 65536;
    }
    EstimateDone(num, ul, v1, v2, qhat, rhat);
  }

  /** What the correction loop keeps: qhat and rhat divide num by v1, rhat possibly
      too large, and qhat has not gone below the capped three-by-two quotient. */
  ghost predicate Estimate(num: int, ul: int, v1: int, v2: int, qhat: int, rhat: int) {
    && 32768 <= v1 < 65536 && 0 <= v2 < 65536 && 0 <= ul < 65536
    && 0 <= num <= v1 * 65536 + 65535
    && 0 <= qhat <= 65537 && 0 <= rhat < 65536 + v1 && num == v1 * qhat + rhat
    && Min(65535, ThreeByTwo(num, ul, v1, v2)) <= qhat
  }

  lemma EstimateInit(num: int, ul: int, v1: int, v2: int, qhat: int, rhat: int)
    requires 32768 <= v1 < 65536 && 0 <= v2 < 65536 && 0 <= ul < 65536
    requires 0 <= num <= v1 * 65536 + 65535
    requires qhat == Wrap32(num) / v1 && rhat == Wrap32(Wrap32(num) - Wrap32(qhat * v1))
    ensures Estimate(num, ul, v1, v2, qhat, rhat) && 0 <= rhat < 65536
  {
    hide ThreeByTwo, Wrap32;
    NoWrap32(num);
    EstimateStart(num, ul, v1, v2);
    EstimateCap(num, v1, qhat);
    NoWrap32(qhat * v1);
    NoWrap32(num - qhat * v1);
    MulComm(qhat, v1);
  }

  lemma NoWrap32(x: int)
    requires 0 <= x < 0x1_0000_0000
    ensures Wrap32(x) == x
  {}

  lemma EstimateStep(num: int, ul: int, v1: int, v2: int, qhat: int, rhat: int)
    requires Estimate(num, ul, v1, v2, qhat, rhat) && rhat < 65536
    requires qhat >= 65536 || Wrap32(qhat * v2) > Wrap32(65536 * rhat + ul)
    ensures qhat > 0 && Wrap32(qhat - 1) == qhat - 1 && Wrap32(rhat + v1) == rhat + v1
    ensures Estimate(num, ul, v1, v2, qhat - 1, rhat + v1)
  {
    hide ThreeByTwo;
    EstimateTest(num, ul, v1, v2, qhat, rhat);
    if qhat < 65536 { ProductFits(qhat, v2); }
    MulDist(v1, qhat, 1);
  }

  lemma EstimateDone(num: int, ul: int, v1: int, v2: int, qhat: int, rhat: int)
    requires Estimate(num, ul, v1, v2, qhat, rhat)
    requires rhat >= 65536 || !(qhat >= 65536 || Wrap32(qhat * v2) > Wrap32(65536 * rhat + ul))
    ensures qhat == Min(65535, ThreeByTwo(num, ul, v1, v2))
  {
    hide ThreeByTwo;
    if qhat >= 65536 { MulMono(v1, 65536, qhat); assert false; }
    EstimateTest(num, ul, v1, v2, qhat, rhat);
    ProductFits(qhat, v2);
  }

  lemma EstimateCap(num: int, v1: int, qhat: int)
    requires 32768 <= v1 && 0 <= num <= v1 * 65536 + 65535 && qhat == num / v1
    ensures 0 <= qhat <= 65537 && 0 <= qhat * v1 <= num && num - qhat * v1 < v1
  {
    QuotientBound(num, v1, 0);
    QuotientBound(num, v1, qhat);
    QuotientBound(num, v1, 65538);
    MulMono(v1, 0, qhat);
  }

  /** A product of two 16-bit digits fits 32 bits. */
  lemma ProductFits(x: int, y: int)
    requires 0 <= x < 65536 && 0 <= y < 65536
    ensures 0 <= x * y <= 65535 * 65535
  {
    MulMono(x, y, 65535);
    MulMono(x, 0, y);
  }

  /** Knuth's theorem: with a normalised divisor, the three-by-two quotient is the
      true quotient digit or one more. x is the weight of the digits not looked at. */
  lemma EstimateIsClose(u3: int, ur: int, v2: int, vr: int, x: int, qhat: int)
    requires 0 <= ur < x && 0 <= vr < x && v2 >= 65536 && u3 >= 0
    requires u3 * x + ur < 65536 * (v2 * x + vr)
    requires qhat == Min(65535, u3 / v2)
    ensures 0 <= qhat
    ensures (qhat - 1) * (v2 * x + vr) <= u3 * x + ur < (qhat + 1) * (v2 * x + vr)
  {
    QuotientBound(u3, v2, 0);
    QuotientBound(u3, v2, qhat);
    QuotientBound(u3, v2, qhat + 1);
    EstimateNotHigh(u3, ur, v2, vr, x, qhat);
    if qhat < 65535 { EstimateNotLow(u3, ur, v2, vr, x, qhat); }
  }

  lemma EstimateNotHigh(u3: int, ur: int, v2: int, vr: int, x: int, qhat: int)
    requires 0 <= ur < x && 0 <= vr < x && v2 >= 65536 && 0 <= qhat <= 65535
    requires v2 * qhat <= u3
    ensures (qhat - 1) * (v2 * x + vr) <= u3 * x + ur
  {
    if qhat == 0 {
      MulMono(v2, 0, x);
    } else {
      MulMono(qhat - 1, vr, x);
      MulMono(x, v2 * qhat, u3);
      MulMono(x, (v2 * qhat) - v2 + (qhat - 1), v2 * qhat);
      EstimateExpand(v2, x, vr, qhat);
    }
  }

  lemma EstimateExpand(v2: int, x: int, vr: int, qhat: int)
    ensures (qhat - 1) * (v2 * x + vr) == x * ((v2 * qhat) - v2) + (qhat - 1) * vr
    ensures x * ((v2 * qhat) - v2 + (qhat - 1)) == x * ((v2 * qhat) - v2) + (qhat - 1) * x
  {}

  lemma EstimateNotLow(u3: int, ur: int, v2: int, vr: int, x: int, qhat: int)
    requires 0 <= ur < x && 0 <= vr < x && 0 <= qhat
    requires v2 * (qhat + 1) > u3
    ensures u3 * x + ur < (qhat + 1) * (v2 * x + vr)
  {
    MulMono(x, u3 + 1, v2 * (qhat + 1));
    MulMono(qhat + 1, 0, vr);
    MulDist(x, u3, 1);
    EstimateExpand2(v2, x, vr, qhat + 1);
  }

  lemma EstimateExpand2(v2: int, x: int, vr: int, q: int)
    ensures q * (v2 * x + vr) == x * (v2 * q) + q * vr
  {}

  // ---- one quotient digit, in place ----

  /** A borrow step of multiply-and-subtract stays within one digit. */
  lemma BorrowStep(v: int, qhat: int, u: int, k: int, p: int, t: int)
    requires 0 <= v < 65536 && 0 <= qhat < 65536 && 0 <= u < 65536 && 0 <= k < 65536
    requires p == Wrap32(qhat * v) && t == u - k - p % 65536
    ensures 0 <= p / 65536 - t / 65536 < 65536
    ensures CarryStep(v, -qhat, u, -k, t % 65536, -(p / 65536 - t / 65536), 65536)
  {
    ProductFits(qhat, v);
    assert p == qhat * v == -(v * -qhat);
  }

  /** Subtracts qhat times the divisor from the window of n + 1 digits at j; the top
      digit is kept modulo 65536 and its signed value t is returned. */
  method MultiplySubtract(un: array<u16>, vn: array<u16>, j: nat, n: nat, qhat: int) returns (t: int)
    requires un != vn && j + n < un.Length && n <= vn.Length && 0 <= qhat < 65536
    modifies un
    ensures forall i :: 0 <= i < un.Length && !(j <= i <= j + n) ==> un[i] == old(un[i])
    ensures V16(un[j..j + n]) + Times(Pow(65536, n), t) == old(V16(un[j..j + n + 1])) - Times(qhat, V16(vn[..n]))
    ensures un[j + n] == t % 65536
  {
    hide Val, Pow, CarryStep;
    ghost var before := un[..];
    ghost var c := [0];
    var k := 0;
    for i := 0 to n
      invariant 0 <= k < 65536 && |c| == i + 1 && c[0] == 0 && c[i] == -k
      invariant forall x :: 0 <= x < un.Length && !(j <= x < j + i) ==> un[x] == before[x]
      invariant Carries(vn[..i], -qhat, before[j..j + i], c, un[j..j + i], 65536)
    {
      var p := Wrap32(qhat * vn[i]);
      t := un[i + j] - k - p % 65536;
      BorrowStep(vn[i], qhat, un[i + j], k, p, t);
      ghost var done := un[j..j + i];
      un[i + j] := t % 65536;
      k := p / 65536 - t / 65536;
      CarriesSnoc(vn[..i], -qhat, before[j..j + i], c, done, 65536, vn[i], before[i + j], un[i + j], -k);
      c := c + [-k];
      assert vn[..i + 1] == vn[..i] + [vn[i]];
      assert before[j..j + (i + 1)] == before[j..j + i] + [before[i + j]];
      assert un[j..j + (i + 1)] == done + [un[i + j]];
    }
    CarryChain(vn[..n], -qhat, before[j..j + n], c, un[j..j + n], 65536);
    t := un[j + n] - k;
    ghost var low := un[j..j + n];
    un[j + n] := t % 65536;
    assert un[j..j + n] == low;
    assert before[j..j + n + 1] == before[j..j + n] + [before[j + n]];
    ValSnoc(before[j..j + n], before[j + n], 65536);
    MulDist(Pow(65536, n), before[j + n], k);
    NegatedProducts(qhat, V16(vn[..n]), Pow(65536, n), k);
  }

  lemma NegatedProducts(q: int, v: int, p: int, k: int)
    ensures (-q) * v == -(q * v) && p * (-k) == -(p * k)
  {}

  /** Adds the divisor back to the window, dropping the carry out of its top digit. */
  method AddBack(un: array<u16>, vn: array<u16>, j: nat, n: nat) returns (k: int)
    requires un != vn && j + n < un.Length && n <= vn.Length
    modifies un
    ensures forall i :: 0 <= i < un.Length && !(j <= i <= j + n) ==> un[i] == old(un[i])
    ensures V16(un[j..j + n]) + Times(Pow(65536, n), k) == old(V16(un[j..j + n])) + V16(vn[..n])
    ensures un[j + n] == (old(un[j + n]) + k) % 65536
  {
    hide Val, Pow;
    ghost var before := un[..];
    ghost var c := [0];
    k := 0;
    for i := 0 to n
      invariant 0 <= k <= 1 && |c| == i + 1 && c[0] == 0 && c[i] == k
      invariant forall x :: 0 <= x < un.Length && !(j <= x < j + i) ==> un[x] == before[x]
      invariant Carries(vn[..i], 1, before[j..j + i], c, un[j..j + i], 65536)
    {
      var t := un[i + j] + vn[i] + k;
      ghost var done := un[j..j + i];
      un[i + j] := t % 65536;
      k := t / 65536;
      CarriesSnoc(vn[..i], 1, before[j..j + i], c, done, 65536, vn[i], before[i + j], un[i + j], k);
      c := c + [k];
      assert vn[..i + 1] == vn[..i] + [vn[i]];
      assert before[j..j + (i + 1)] == before[j..j + i] + [before[i + j]];
      assert un[j..j + (i + 1)] == done + [un[i + j]];
    }
    CarryChain(vn[..n], 1, before[j..j + n], c, un[j..j + n], 65536);
    ghost var low := un[j..j + n];
    un[j + n] := (un[j + n] + k) % 65536;
    assert un[j..j + n] == low;
  }

  /** The leading three digits of the window and two of the divisor, above the rest. */
  lemma LeadingDigits(w: seq<int>, v: seq<int>, n: nat)
    requires n >= 2 && |w| == n + 1 && |v| == n && InBase(w, 65536) && InBase(v, 65536)
    ensures V16(w) == ((w[n] * 65536 + w[n - 1]) * 65536 + w[n - 2]) * Pow(65536, n - 2) + V16(w[..n - 2])
    ensures V16(v) == (v[n - 1] * 65536 + v[n - 2]) * Pow(65536, n - 2) + V16(v[..n - 2])
    ensures 0 <= V16(w[..n - 2]) < Pow(65536, n - 2) && 0 <= V16(v[..n - 2]) < Pow(65536, n - 2)
  {
    hide Val, Pow;
    ValSplit(w, n - 2, 65536);
    ValSplit(v, n - 2, 65536);
    assert w[n - 2..] == [w[n - 2], w[n - 1], w[n]];
    assert v[n - 2..] == [v[n - 2], v[n - 1]];
    ThreeDigits(w[n - 2], w[n - 1], w[n]);
    ThreeDigits(v[n - 2], v[n - 1], 0);
    ValBound(w[..n - 2], 65536);
    ValBound(v[..n - 2], 65536);
  }

  lemma ThreeDigits(a: int, b: int, c: int)
    ensures V16([a, b, c]) == (c * 65536 + b) * 65536 + a
    ensures V16([a, b]) == b * 65536 + a
  {
    assert V16([]) == 0 && [c][1..] == [] && [b][1..] == [];
    assert V16([c]) == c + 65536 * V16([]) && V16([b]) == b + 65536 * V16([]);
    assert [b, c][1..] == [c] && [a, b][1..] == [b];
    assert V16([b, c]) == b + 65536 * V16([c]) && V16([a, b]) == a + 65536 * V16([b]);
    assert [a, b, c][1..] == [b, c];
    assert V16([a, b, c]) == a + 65536 * V16([b, c]);
  }

  /** A window below 65536 times the divisor cannot lead with a larger digit. */
  lemma TopDigitSmall(w: seq<int>, v: seq<int>, n: nat)
    requires n >= 1 && |w| == n + 1 && |v| == n && InBase(w, 65536) && InBase(v, 65536)
    requires V16(w) < 65536 * V16(v)
    ensures w[n] <= v[n - 1]
  {
    var p := Pow(65536, n - 1);
    assert w == w[..n] + [w[n]] && v == v[..n - 1] + [v[n - 1]];
    ValSnoc(w[..n], w[n], 65536);
    ValSnoc(v[..n - 1], v[n - 1], 65536);
    ValBound(w[..n], 65536);
    ValBound(v[..n - 1], 65536);
    assert Pow(65536, n) == 65536 * p;
    hide Val, Pow;
    if w[n] > v[n - 1] {
      MulMono(p, v[n - 1] + 1, w[n]);
      MulDist(p, v[n - 1], 1);
      MulAssoc(65536, p, w[n]);
    }
  }

  /** Reading the digit estimate as a bound on the quotient of the whole window. */
  lemma EstimateWindow(w: seq<int>, v: seq<int>, n: nat, qhat: int)
    requires n >= 2 && |w| == n + 1 && |v| == n && InBase(w, 65536) && InBase(v, 65536)
    requires v[n - 1] >= 32768 && V16(w) < 65536 * V16(v)
    requires qhat == Min(65535, ThreeByTwo(w[n] * 65536 + w[n - 1], w[n - 2], v[n - 1], v[n - 2]))
    ensures 0 <= qhat < 65536
    ensures -V16(v) <= V16(w) - Times(qhat, V16(v)) < V16(v)
  {
    LeadingDigits(w, v, n);
    hide Val, Pow, V16;
    EstimateIsClose((w[n] * 65536 + w[n - 1]) * 65536 + w[n - 2], V16(w[..n - 2]),
                    v[n - 1] * 65536 + v[n - 2], V16(v[..n - 2]), Pow(65536, n - 2), qhat);
    MulPred(qhat, V16(v));
  }

  /** The signed top digit tells whether the subtraction went below zero. */
  lemma SignOfTop(low: int, p: int, t: int, d: int, v: int)
    requires 0 <= low < p && 0 < v <= p && low + Times(p, t) == d && -v <= d < v
    ensures if d < 0 then t == -1 && low == d + p else t == 0 && low == d
  {
    if t < -1 { MulMono(p, t, -2); }
    if t > 0 { MulMono(p, 1, t); }
  }

  lemma AddedBack(low: int, p: int, k: int, low': int, rest: int, v: int)
    requires 0 <= low' < p && 0 < v <= p && low == rest + p && -v <= rest < 0
    requires low' + Times(p, k) == low + v
    ensures k == 1 && low' == rest + v
  {
    MulDist(p, k, 1);
    SignOfTop(low', p, k - 1, rest + v, v);
  }

  /** Subtracts qhat times the divisor from the window and, if that went below zero,
      adds the divisor back once. */
  method SubtractDigit(un: array<u16>, vn: array<u16>, j: nat, n: nat, qhat: int) returns (qj: u16)
    requires un != vn && j + n < un.Length && n <= vn.Length && 0 <= qhat < 65536
    requires -V16(vn[..n]) <= V16(un[j..j + n + 1]) - Times(qhat, V16(vn[..n])) < V16(vn[..n])
    modifies un
    ensures forall i :: 0 <= i < un.Length && !(j <= i <= j + n) ==> un[i] == old(un[i])
    ensures V16(un[j..j + n]) == old(V16(un[j..j + n + 1])) - Times(qj, V16(vn[..n]))
    ensures 0 <= V16(un[j..j + n]) < V16(vn[..n]) && un[j + n] == 0
  {
    hide Val, Pow, V16, Times;
    ghost var v := vn[..n];
    V16Bound(un[j..j + n + 1]);
    V16Bound(vn[..n]);
    ghost var rest := V16(un[j..j + n + 1]) - Times(qhat, V16(v));
    MulPred(qhat, V16(v));
    var t := MultiplySubtract(un, vn, j, n, qhat);
    assert vn[..n] == v;
    ghost var low := V16(un[j..j + n]);
    V16Bound(un[j..j + n]);
    SignOfTop(low, Pow(65536, n), t, rest, V16(v));
    qj := qhat;
    if t < 0 {
      qj := qhat - 1;
      var k := AddBack(un, vn, j, n);
      assert vn[..n] == v;
      V16Bound(un[j..j + n]);
      AddedBack(low, Pow(65536, n), k, V16(un[j..j + n]), rest, V16(v));
    }
  }

  lemma MulPred(q: int, v: int)
    requires 0 <= q
    ensures Times(q - 1, v) == Times(q, v) - v && Times(q + 1, v) == Times(q, v) + v
    ensures q == 0 ==> Times(q, v) == 0
  {}

  /** One round of the main loop: the window at j is reduced modulo the divisor in
      place and the quotient digit is returned. */
  method DivideDigit(un: array<u16>, vn: array<u16>, j: nat, n: nat) returns (qj: u16)
    requires un != vn && n >= 2 && j + n < un.Length && n <= vn.Length
    requires vn[n - 1] >= 32768
    requires V16(un[j..j + n + 1]) < 65536 * V16(vn[..n])
    modifies un
    ensures forall i :: 0 <= i < un.Length && !(j <= i <= j + n) ==> un[i] == old(un[i])
    ensures V16(un[j..j + n]) == old(V16(un[j..j + n + 1])) - Times(qj, V16(vn[..n]))
    ensures 0 <= V16(un[j..j + n]) < V16(vn[..n]) && un[j + n] == 0
  {
    ghost var w, v := un[j..j + n + 1], vn[..n];
    TopDigitSmall(w, v, n);
    V16Bound(un[j..j + n + 1]);
    hide Val, Pow, V16, ThreeByTwo, Min, Times;
    var qhat, fixes := EstimateDigit(un[j + n], un[j + n - 1], un[j + n - 2], vn[n - 1], vn[n - 2]);
    EstimateWindow(w, v, n, qhat);
    qj := SubtractDigit(un, vn, j, n, qhat);
  }

  lemma V16Bound(s: seq<u16>)
    ensures 0 <= V16(s) < Pow(65536, |s|)
  {
    ValBound(s, 65536);
  }

  // ---- normalisation ----

  lemma Pow16()
    ensures Pow(2, 16) == 65536
  {
    assert Pow(2, 8) == 256;
    PowAdd(2, 8, 8);
  }

  /** Writes the first len digits of d, shifted left by s bits, into dst. */
  method ShiftInto(dst: array<u16>, d: seq<u16>, len: nat, s: nat)
    requires 1 <= len <= |d| && len <= dst.Length && s <= 15
    modifies dst
    ensures forall i :: len <= i < dst.Length ==> dst[i] == old(dst[i])
    ensures ShiftedLeft(dst[..len], d[..len], s, 16)
    ensures V16(dst[..len]) + Pow(65536, len) * Shr(d[len - 1], 16 - s) == Pow(2, s) * V16(d[..len])
  {
    Pow16();
    hide Pow, Val, Funnel;
    var i := len - 1;
    while i > 0
      invariant 0 <= i < len
      invariant forall x :: len <= x < dst.Length ==> dst[x] == old(dst[x])
      invariant forall x :: i < x < len ==> dst[x] == Funnel(d[x], d[x - 1], s, 16)
    {
      FunnelValue(d[i], d[i - 1], s, 16);
      dst[i] := Funnel(d[i], d[i - 1], s, 16);
      i := i - 1;
    }
    FunnelBottom(d[0], s);
    dst[0] := Shl(d[0], s) % 65536;
    assert ShiftedLeft(dst[..len], d[..len], s, 16);
    ShiftedLeftValue(dst[..len], d[..len], s, 16);
    assert d[..len][..len] == d[..len];
  }

  lemma FunnelBottom(x: int, s: nat)
    requires 0 <= x < 65536 && s <= 15
    ensures Funnel(x, 0, s, 16) == Shl(x, s) % 65536
  {
    Pow16();
    hide Pow;
    OrZero(Shl(x, s));
    DivModUnique(0, Pow(2, 16 - s), 0, 0);
  }

  /** The shift that brings the leading divisor digit to at least half the base. */
  method NormalisingShift(top: u16) returns (s: nat)
    requires top != 0
    ensures s <= 15 && 32768 <= top * Pow(2, s) < 65536
  {
    Pow16();
    hide Pow;
    var z := LeadingZeros32(top);
    if z < 16 { ShortShift(top, z); }
    s := z - 16;
    ShlMore(top, s, 16, 65536);
  }

  /** Fewer than sixteen leading zeros would need a seventeenth bit. */
  lemma ShortShift(top: int, z: nat)
    requires 0 <= top < 65536 && z < 16
    ensures Shl(top, z) < 0x8000_0000
  {
    PowMono(2, z, 15);
    assert Pow(2, 15) == 32768;
    hide Pow;
    MulMono(top, Pow(2, z), 32768);
  }

  /** The bits that leave a digit shifted by s number less than 2^s. */
  lemma NothingLeaves(x: int, s: nat)
    requires 0 <= x < 65536 && s <= 15
    ensures 0 <= Shr(x, 16 - s) < Pow(2, s) <= 32768
    ensures x * Pow(2, s) < 65536 ==> Shr(x, 16 - s) == 0
  {
    Pow16();
    PowMono(2, s, 15);
    assert Pow(2, 15) == 32768;
    PowAdd(2, s, 16 - s);
    hide Pow;
    ShlSplit(x, s, 16);
    if Shr(x, 16 - s) >= 1 {
      MulMono(65536, 1, Shr(x, 16 - s));
    }
  }

  /** What the main loop keeps, with the digits from j up divided: the dividend is the
      undivided low part plus divisor times quotient, and the next n digits are a remainder. */
  ghost predicate Divided(num: int, un: seq<int>, v: int, q: seq<int>, j: nat, n: nat)
    requires j + n <= |un|
  {
    && num == V16(un[..j + n]) + Pow(65536, j) * (v * V16(q))
    && 0 <= V16(un[j..j + n]) < v
    && (forall i :: j + n <= i < |un| ==> un[i] == 0)
  }

  /** A window whose upper n digits are a remainder is below 65536 divisors. */
  lemma NextWindow(un: seq<int>, v: int, j: nat, n: nat)
    requires j + n < |un| && InBase(un, 65536)
    requires 0 <= V16(un[j + 1..j + 1 + n]) < v
    ensures V16(un[j..j + n + 1]) < 65536 * v
  {
    var w := un[j..j + n + 1];
    assert w[1..] == un[j + 1..j + 1 + n];
  }

  lemma DividedStep(num: int, un: seq<int>, un': seq<int>, v: int, q: seq<int>, qj: int, j: nat, n: nat)
    requires |un| == |un'| && j + 1 + n <= |un|
    requires Divided(num, un, v, q, j + 1, n)
    requires forall i :: 0 <= i < |un| && !(j <= i <= j + n) ==> un'[i] == un[i]
    requires V16(un'[j..j + n]) == V16(un[j..j + n + 1]) - Times(qj, v)
    requires 0 <= V16(un'[j..j + n]) < v && un'[j + n] == 0
    ensures Divided(num, un', v, [qj] + q, j, n)
  {
    var a, b := un[..j + 1 + n], un'[..j + n];
    ValSplit(a, j, 65536);
    ValSplit(b, j, 65536);
    assert a[..j] == b[..j];
    assert a[j..] == un[j..j + n + 1] && b[j..] == un'[j..j + n];
    assert Pow(65536, j + 1) == 65536 * Pow(65536, j);
    assert ([qj] + q)[1..] == q;
    assert V16([qj] + q) == qj + 65536 * V16(q);
    hide Val, Pow;
    DividedAlgebra(Pow(65536, j), v, V16(q), qj, V16(un[j..j + n + 1]));
  }

  lemma DividedAlgebra(p: int, v: int, q: int, qj: int, w: int)
    ensures p * w + (65536 * p) * (v * q) == p * (w - qj * v) + p * (v * (qj + 65536 * q))
  {
    MulDist(p, w, qj * v);
    MulDist(v, qj, 65536 * q);
    MulDist(p, v * qj, v * (65536 * q));
    assert v * (65536 * q) == 65536 * (v * q);
    assert (65536 * p) * (v * q) == p * (65536 * (v * q));
  }

  // ---- the whole division ----

  /** Division by a single digit, from the top down. */
  method DivideBySmall(q: array<u16>, u: seq<u16>, m: nat, d: u16) returns (k: u16)
    requires d != 0 && m <= |u| && m <= q.Length
    modifies q
    ensures forall i :: m <= i < q.Length ==> q[i] == old(q[i])
    ensures V16(u[..m]) == d * V16(q[..m]) + k && k < d
  {
    k := 0;
    var j := m;
    assert u[m..m] == [] && q[m..m] == [];
    while j > 0
      invariant 0 <= j <= m && k < d
      invariant forall i :: m <= i < q.Length ==> q[i] == old(q[i])
      invariant V16(u[j..m]) == d * V16(q[j..m]) + k
    {
      ghost var above := q[j..m];
      j := j - 1;
      var x := Wrap32(k * 65536 + u[j]);
      SmallStep(k, u[j], d);
      var k' := Wrap32(x - (x / d) * d);
      q[j] := x / d;
      assert q[j..m] == [q[j]] + above && u[j..m] == [u[j]] + u[j + 1..m];
      SmallDigits(u[j], u[j + 1..m], q[j], above, d, k, k');
      k := k';
    }
    assert u[0..m] == u[..m] && q[0..m] == q[..m];
  }

  lemma SmallStep(k: int, u: int, d: int)
    requires 0 <= k < d < 65536 && 0 <= u < 65536
    ensures Wrap32(k * 65536 + u) == k * 65536 + u
    ensures 0 <= (k * 65536 + u) / d < 65536
    ensures 0 <= (k * 65536 + u) - ((k * 65536 + u) / d) * d < d
  {
    QuotientBound(k * 65536 + u, d, 0);
    QuotientBound(k * 65536 + u, d, 65536);
    DivMod(k * 65536 + u, d);
  }

  lemma SmallDigits(u: int, us: seq<int>, q: int, qs: seq<int>, d: int, k: int, k': int)
    requires V16(us) == d * V16(qs) + k && k * 65536 + u == q * d + k'
    ensures V16([u] + us) == d * V16([q] + qs) + k'
  {
    assert ([u] + us)[1..] == us && ([q] + qs)[1..] == qs;
    assert V16([u] + us) == u + 65536 * V16(us) && V16([q] + qs) == q + 65536 * V16(qs);
    hide Val;
    MulDist(d, q, 65536 * V16(qs));
    assert d * (65536 * V16(qs)) == 65536 * (d * V16(qs));
  }

  /** A numeral is smaller when its leading digit is. */
  lemma SmallerLead(x: seq<int>, y: seq<int>)
    requires |x| == |y| > 0 && InBase(x, 65536) && InBase(y, 65536)
    requires x[|x| - 1] < y[|x| - 1]
    ensures 0 <= V16(x) < V16(y)
  {
    var k := |x| - 1;
    assert x == x[..k] + [x[k]] && y == y[..k] + [y[k]];
    ValSnoc(x[..k], x[k], 65536);
    ValSnoc(y[..k], y[k], 65536);
    ValBound(x[..k], 65536);
    ValBound(y[..k], 65536);
    ValBound(x, 65536);
    hide Val, Pow;
    MulMono(Pow(65536, k), x[k] + 1, y[k]);
    MulDist(Pow(65536, k), x[k], 1);
  }

  /** Shifting the divisor left keeps its length and raises its leading digit. */
  method NormaliseDivisor(v: seq<u16>, n: nat) returns (vn: array<u16>, s: nat)
    requires 2 <= n <= |v| && n <= MAX_LEN16 && v[n - 1] != 0
    ensures fresh(vn) && vn.Length == MAX_LEN16 && s <= 15
    ensures vn[n - 1] >= 32768 && V16(vn[..n]) == Times(Pow(2, s), V16(v[..n]))
  {
    hide Val, Pow, Funnel, Shr, V16;
    s := NormalisingShift(v[n - 1]);
    vn := new u16[MAX_LEN16];
    ShiftInto(vn, v, n, s);
    NothingLeaves(v[n - 1], s);
    LeadingDigit(v[n - 1], v[n - 2], s);
    assert vn[..n][n - 1] == Funnel(v[..n][n - 1], Below(v[..n], n - 1), s, 16);
  }

  lemma LeadingDigit(x: int, lo: int, s: nat)
    requires 0 <= x < 65536 && 0 <= lo < 65536 && s <= 15 && x * Pow(2, s) < 65536
    ensures Funnel(x, lo, s, 16) >= x * Pow(2, s)
  {
    Pow16();
    NothingLeaves(x, s);
    NothingLeaves(lo, s);
    hide Pow, Funnel;
    FunnelValue(x, lo, s, 16);
    ShlSplit(x, s, 16);
  }

  /** The shifted dividend, one digit longer. */
  method NormaliseDividend(u: seq<u16>, m: nat, s: nat) returns (un: array<u16>)
    requires 1 <= m <= |u| && m <= MAX_LEN16 && s <= 15
    ensures fresh(un) && un.Length == MAX_LEN16 + 1
    ensures un[m] < 32768 && V16(un[..m + 1]) == Times(Pow(2, s), V16(u[..m]))
  {
    un := new u16[MAX_LEN16 + 1];
    NothingLeaves(u[m - 1], s);
    un[m] := Shr(u[m - 1], 16 - s);
    ShiftInto(un, u, m, s);
    hide Val, Pow;
    assert un[..m + 1] == un[..m] + [un[m]];
    ValSnoc(un[..m], un[m], 65536);
  }

  /** Shifting the remainder back. */
  method Unnormalise(r: array<u16>, un: array<u16>, n: nat, s: nat)
    requires r != un && n <= r.Length && n < un.Length && s <= 15 && un[n] == 0
    modifies r
    ensures forall i :: n <= i < r.Length ==> r[i] == old(r[i])
    ensures n > 0 ==> V16(un[..n]) == Pow(2, s) * V16(r[..n]) + un[0] % Pow(2, s)
  {
    Pow16();
    hide Pow, Val, Funnel;
    for i := 0 to n
      invariant forall x :: n <= x < r.Length ==> r[x] == old(r[x])
      invariant forall x :: 0 <= x < i ==> r[x] == Funnel(un[x + 1], un[x], 16 - s, 16)
    {
      FunnelRightCarry(un[i + 1], un[i], s, 16);
      r[i] := Funnel(un[i + 1], un[i], 16 - s, 16);
    }
    ShiftedRightValue(r[..n], un[..n], 0, s, 16);
    DivModUnique(0, Pow(2, s), 0, 0);
  }

  /** The common factor of dividend, divisor and remainder cancels. */
  lemma CancelShift(p: int, u: int, v: int, q: int, rest: int, d: int)
    requires p > 0 && d == Times(p, v) && Times(p, u) == rest + Times(d, q) && 0 <= rest < d
    ensures v > 0 && u / v == q && u % v == rest / p
  {
    var r := rest / p;
    DivMod(rest, p);
    MulAssoc(p, v, q);
    MulDist(p, u - r, v * q);
    MulDist(p, u, r);
    RemainderUnique(p, u - r - v * q, 0, 0, rest % p);
    if v <= 0 { MulMono(p, v, 0); }
    QuotientBound(rest, p, 0);
    QuotientBound(rest, p, v);
    DivModUnique(u, v, q, r);
  }

  /** One iteration of the main loop: one more digit divided and stored. */
  method DivideRound(q: array<u16>, un: array<u16>, vn: array<u16>, j: nat, m: nat, n: nat,
                     ghost num: int, ghost qs: seq<u16>)
    requires un != vn && un != q && vn != q && 2 <= n && j + n <= m < un.Length && n <= vn.Length && j < q.Length
    requires vn[n - 1] >= 32768 && Divided(num, un[..m + 1], V16(vn[..n]), qs, j + 1, n)
    modifies q, un
    ensures forall i :: 0 <= i < q.Length && i != j ==> q[i] == old(q[i])
    ensures Divided(num, un[..m + 1], V16(vn[..n]), [q[j]] + qs, j, n)
  {
    hide Val, Pow, V16, Times;
    ghost var before, d := un[..m + 1], vn[..n];
    assert before[j + 1..j + 1 + n] == un[j + 1..j + 1 + n] && before[j..j + n + 1] == un[j..j + n + 1];
    NextWindow(before, V16(d), j, n);
    var qj := DivideDigit(un, vn, j, n);
    q[j] := qj;
    assert un[..m + 1][j..j + n] == un[j..j + n] && vn[..n] == d;
    DividedStep(num, before, un[..m + 1], V16(d), qs, qj, j, n);
  }

  /** Division by two or more digits: normalise, produce quotient digits from the top. */
  method DivideByLong(q: array<u16>, u: seq<u16>, v: seq<u16>, m: nat, n: nat)
    returns (un: array<u16>, s: nat, ghost d: int)
    requires 2 <= n <= m <= MAX_LEN16 && m <= |u| && n <= |v| && v[n - 1] != 0
    requires m - n + 1 <= q.Length
    modifies q
    ensures forall i :: m - n < i < q.Length ==> q[i] == old(q[i])
    ensures fresh(un) && un.Length == MAX_LEN16 + 1 && s <= 15 && un[n] == 0
    ensures d == Times(Pow(2, s), V16(v[..n])) && 0 <= V16(un[..n]) < d
    ensures Times(Pow(2, s), V16(u[..m])) == V16(un[..n]) + Times(d, V16(q[..m - n + 1]))
  {
    hide Val, Pow, V16, Times;
    var vn: array<u16>;
    vn, s := NormaliseDivisor(v, n);
    un := NormaliseDividend(u, m, s);
    ghost var num, vs := V16(un[..m + 1]), vn[..n];
    d := V16(vs);
    var j := m - n + 1;
    ghost var qs: seq<u16> := [];
    DividedStart(num, un[..m + 1], vs, j, n);
    hide Divided;
    while j > 0
      invariant 0 <= j <= m - n + 1 && vn[..n] == vs
      invariant forall i :: m - n < i < q.Length ==> q[i] == old(q[i])
      invariant q[j..m - n + 1] == qs
      invariant Divided(num, un[..m + 1], d, qs, j, n)
    {
      j := j - 1;
      DivideRound(q, un, vn, j, m, n, num, qs);
      qs := [q[j]] + qs;
    }
    assert q[0..m - n + 1] == q[..m - n + 1];
    DividedEnd(num, un[..m + 1], d, qs, n);
    assert un[..m + 1][..n] == un[..n];
  }

  lemma DividedStart(num: int, un: seq<int>, v: seq<int>, j: nat, n: nat)
    requires n >= 1 && j + n == |un| && |v| == n && InBase(un, 65536) && InBase(v, 65536)
    requires un[|un| - 1] < v[n - 1] && V16(un) == num
    ensures Divided(num, un, V16(v), [], j, n)
  {
    SmallerLead(un[j..j + n], v);
    assert un[..j + n] == un;
    assert V16([]) == 0;
    hide Val, Pow;
  }

  lemma DividedEnd(num: int, un: seq<int>, v: int, q: seq<int>, n: nat)
    requires n < |un| && Divided(num, un, v, q, 0, n)
    ensures num == V16(un[..n]) + Times(v, V16(q)) && 0 <= V16(un[..n]) < v && un[n] == 0
  {
    assert Pow(65536, 0) == 1;
    assert un[0..0 + n] == un[..n];
  }

  /** divmnu16: the quotient, and the remainder when the caller wants it. Invalid
      parameters are reported and change nothing. */
  method DivMnu16(q: array<u16>, r: array?<u16>, u: seq<u16>, v: seq<u16>, m: int, n: int) returns (err: int)
    requires m <= |u| && n <= |v| && m <= MAX_LEN16 && q != r
    requires 1 <= n <= m ==> m - n + 1 <= q.Length && (r != null ==> n <= r.Length)
    modifies q, r
    ensures err != 0 <==> m < n || n <= 0 || v[n - 1] == 0
    ensures err != 0 ==> q[..] == old(q[..]) && (r != null ==> r[..] == old(r[..]))
    ensures err == 0 ==> V16(v[..n]) > 0 && V16(q[..m - n + 1]) == V16(u[..m]) / V16(v[..n])
    ensures err == 0 && r != null ==> V16(r[..n]) == V16(u[..m]) % V16(v[..n])
    ensures err == 0 ==> forall i :: m - n < i < q.Length ==> q[i] == old(q[i])
    ensures err == 0 && r != null ==> forall i :: n <= i < r.Length ==> r[i] == old(r[i])
  {
    if m < n || n <= 0 || v[n - 1] == 0 {
      return 1;
    }
    if n == 1 {
      var k := DivideBySmall(q, u, m, v[0]);
      OneDigit(v[0]);
      assert v[..1] == [v[0]];
      hide Val, Pow;
      DivModUnique(V16(u[..m]), v[0], V16(q[..m]), k);
      if r != null {
        r[0] := k;
        OneDigit(k);
        assert r[..1] == [k];
      }
      return 0;
    }
    var un, s, d := DivideByLong(q, u, v, m, n);
    hide Val, Pow, Times;
    CancelShift(Pow(2, s), V16(u[..m]), V16(v[..n]), V16(q[..m - n + 1]), V16(un[..n]), d);
    if r != null {
      ghost var quotient := q[..m - n + 1];
      Unnormalise(r, un, n, s);
      assert q[..m - n + 1] == quotient;
      DivMod(un[0], Pow(2, s));
      DivModUnique(V16(un[..n]), Pow(2, s), V16(r[..n]), un[0] % Pow(2, s));
    }
    return 0;
  }

  lemma OneDigit(x: int)
    ensures V16([x]) == x
  {
    assert [x][1..] == [] && V16([]) == 0;
    assert V16([x]) == x + 65536 * V16([]);
  }
}
