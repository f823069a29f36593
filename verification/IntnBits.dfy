/** Bitwise operations on sign-magnitude integers, by way of two's complement
    digits kept to the length of the longer operand. */
module IntnBits {
  import opened Prelude
  import opened Digits
  import opened Bits
  import opened Division
  import opened Intn

  /** Value of n digits is below this. */
  function Room(n: nat): int { Pow(0x1_0000_0000, n) }

  lemma Pow32()
    ensures Pow(2, 32) == 0x1_0000_0000
  {
    Pow16();
    PowAdd(2, 16, 16);
  }

  lemma RoomIsPower(n: nat)
    ensures Room(n) == Pow(2, 32 * n)
  {
    Pow32();
    PowMul(2, 32, n);
  }

  // ---- negation modulo the room of the digits ----

  lemma {:induction false} AllOnes(n: nat)
    ensures V32(seq(n, _ => 0xFFFF_FFFF)) == Room(n) - 1
  {
    if n > 0 {
      AllOnes(n - 1);
      assert seq(n, _ => 0xFFFF_FFFF)[1..] == seq(n - 1, _ => 0xFFFF_FFFF);
    }
  }

  /** Two's complement of a magnitude: zero stays zero. */
  function Complement(v: int, n: nat): int { if v == 0 then 0 else Room(n) - v }

  /** A digit loop that negated d: what it wrote and its last carry. */
  lemma NegatedValue(d: seq<u32>, c: seq<int>, out: seq<u32>)
    requires |c| == |d| + 1 && c[0] == 1 && 0 <= c[|d|] <= 1
    requires Carries(d, -1, seq(|d|, _ => 0xFFFF_FFFF), c, out, 0x1_0000_0000)
    ensures V32(out) == Complement(V32(d), |d|)
    ensures c[|d|] == if V32(d) == 0 then 1 else 0
  {
    hide Val, Pow;
    AllOnes(|d|);
    V32Bound(d);
    V32Bound(out);
    CarryChain(d, -1, seq(|d|, _ => 0xFFFF_FFFF), c, out, 0x1_0000_0000);
    assert V32(out) + Room(|d|) * c[|d|] == Room(|d|) - V32(d);
  }

  /** neg */
  method Neg(s: seq<u32>, out: array<u32>)
    requires |s| <= out.Length
    modifies out
    ensures V32(out[..|s|]) == Complement(V32(s), |s|)
    ensures forall i :: |s| <= i < out.Length ==> out[i] == old(out[i])
  {
    hide Val, Pow;
    ghost var ones := seq(|s|, _ => 0xFFFF_FFFF);
    var carry := 1;
    ghost var c := [1];
    for i := 0 to |s|
      invariant 0 <= carry <= 1 && |c| == i + 1 && c[0] == 1 && c[i] == carry
      invariant Carries(s[..i], -1, ones[..i], c, out[..i], 0x1_0000_0000)
      invariant forall x :: i <= x < out.Length ==> out[x] == old(out[x])
    {
      var temp := Wrap64(0xFFFF_FFFF - s[i] + carry);
      ghost var done := out[..i];
      out[i] := temp % 0x1_0000_0000;
      carry := temp / 0x1_0000_0000;
      Extend(s, ones, c, done, i, -1, out[i], carry);
      assert out[..i + 1] == done + [out[i]];
      c := c + [carry];
    }
    assert s[..|s|] == s && ones[..|s|] == ones;
    NegatedValue(s, c, out[..|s|]);
  }

  /** cond_neg: two's complement digits of a signed integer. */
  method CondNeg(sign: Sign, s: seq<u32>, out: array<u32>)
    requires |s| <= out.Length
    modifies out
    ensures V32(out[..|s|]) == if sign == Negative then Complement(V32(s), |s|) else V32(s)
    ensures forall i :: |s| <= i < out.Length ==> out[i] == old(out[i])
  {
    if sign == Positive {
      for i := 0 to |s|
        invariant forall x :: 0 <= x < i ==> out[x] == s[x]
        invariant forall x :: i <= x < out.Length ==> out[x] == old(out[x])
      {
        out[i] := s[i];
      }
      assert out[..|s|] == s;
    } else {
      Neg(s, out);
    }
  }

  // ---- digit-wise operation on two's complement ----

  ghost predicate Digitwise(f: BitFn, p: seq<int>, q: seq<int>, r: seq<int>) {
    |p| == |q| == |r| && forall i :: 0 <= i < |r| ==> r[i] == BitOp(f, p[i], q[i])
  }

  /** Digits below and sign above: the operation on the digits and on the signs is
      the operation on the integers. */
  lemma {:induction false} DigitwiseValue(f: BitFn, p: seq<u32>, q: seq<u32>, r: seq<int>, sp: int, sq: int)
    requires Digitwise(f, p, q, r)
    ensures BitOp(f, Extended(p, sp), Extended(q, sq)) == Extended(r, BitOp(f, sp, sq))
  {
    if |p| > 0 {
      DigitwiseValue(f, p[1..], q[1..], r[1..], sp, sq);
      DigitwiseStep(f, p, q, r, sp, sq);
    } else {
      assert Room(0) == 1;
    }
  }

  /** Digits of p with the sign sp repeated above them. */
  ghost function Extended(p: seq<int>, sp: int): int { V32(p) + Room(|p|) * sp }

  lemma DigitwiseStep(f: BitFn, p: seq<u32>, q: seq<u32>, r: seq<int>, sp: int, sq: int)
    requires Digitwise(f, p, q, r) && |p| > 0
    requires BitOp(f, Extended(p[1..], sp), Extended(q[1..], sq)) == Extended(r[1..], BitOp(f, sp, sq))
    ensures BitOp(f, Extended(p, sp), Extended(q, sq)) == Extended(r, BitOp(f, sp, sq))
  {
    Pow32();
    hide Val, Pow, BitOp, Extended;
    UnfoldSigned(p, sp);
    UnfoldSigned(q, sq);
    UnfoldSigned(r, BitOp(f, sp, sq));
    BitOpSplit(f, p[0], Extended(p[1..], sp), q[0], Extended(q[1..], sq), 32);
  }

  lemma UnfoldSigned(p: seq<int>, sp: int)
    requires |p| > 0
    ensures Extended(p, sp) == p[0] + 0x1_0000_0000 * Extended(p[1..], sp)
  {
    assert V32(p) == p[0] + 0x1_0000_0000 * V32(p[1..]);
    assert Room(|p|) == 0x1_0000_0000 * Room(|p| - 1);
    hide Val, Pow, Room;
    MulAssoc(0x1_0000_0000, Room(|p| - 1), sp);
  }

  /** The operation on digits stays a digit. */
  lemma DigitOp(f: BitFn, x: u32, y: u32)
    ensures 0 <= BitOp(f, x, y) < 0x1_0000_0000
  {
    Pow32();
    hide Pow;
    BitOpRange(f, x, y, 32);
  }

  /** Sign of a two's complement string: all zeros or all ones. */
  function SignWord(sign: Sign): int { if sign == Negative then -1 else 0 }

  /** signed_bitwise: combines out with b, b negated on the fly and sign-extended;
      q is the digit string of b that was used. */
  method SignedBitwise(f: BitFn, b: seq<u32>, bSign: Sign, out: array<u32>, outLen: nat) returns (ghost q: seq<u32>)
    requires |b| <= outLen <= out.Length && (bSign == Negative ==> V32(b) > 0)
    modifies out
    ensures |q| == outLen && Extended(q, SignWord(bSign)) == Signed(bSign, b)
    ensures Digitwise(f, old(out[..outLen]), q, out[..outLen])
    ensures forall i :: outLen <= i < out.Length ==> out[i] == old(out[i])
  {
    if bSign == Positive {
      q := PositiveBitwise(f, b, out, outLen);
    } else {
      q := NegativeBitwise(f, b, out, outLen);
    }
  }

  method PositiveBitwise(f: BitFn, b: seq<u32>, out: array<u32>, outLen: nat) returns (ghost q: seq<u32>)
    requires |b| <= outLen <= out.Length
    modifies out
    ensures |q| == outLen && Extended(q, 0) == V32(b)
    ensures Digitwise(f, old(out[..outLen]), q, out[..outLen])
    ensures forall i :: outLen <= i < out.Length ==> out[i] == old(out[i])
  {
    hide Val, Pow, BitOp, Extended;
    q := ZeroExtend(b, outLen);
    ghost var before := out[..];
    for i := 0 to |b|
      invariant forall x :: 0 <= x < i ==> out[x] == BitOp(f, before[x], q[x])
      invariant forall x :: i <= x < out.Length ==> out[x] == before[x]
    {
      DigitOp(f, out[i], b[i]);
      out[i] := BitOp(f, out[i], b[i]);
    }
    for i := |b| to outLen
      invariant forall x :: 0 <= x < i ==> out[x] == BitOp(f, before[x], q[x])
      invariant forall x :: i <= x < out.Length ==> out[x] == before[x]
    {
      DigitOp(f, out[i], 0);
      out[i] := BitOp(f, out[i], 0);
    }
  }

  /** Digits with zeros above them stand for the same integer. */
  lemma ZeroExtend(b: seq<u32>, outLen: nat) returns (q: seq<u32>)
    requires |b| <= outLen
    ensures |q| == outLen && Extended(q, 0) == V32(b)
    ensures forall i :: 0 <= i < outLen ==> q[i] == if i < |b| then b[i] else 0
  {
    q := Pad(b, outLen);
    PadValue(b, outLen, 0x1_0000_0000);
  }

  method NegativeBitwise(f: BitFn, b: seq<u32>, out: array<u32>, outLen: nat) returns (ghost q: seq<u32>)
    requires |b| <= outLen <= out.Length && V32(b) > 0
    modifies out
    ensures |q| == outLen && Extended(q, -1) == -V32(b)
    ensures Digitwise(f, old(out[..outLen]), q, out[..outLen])
    ensures forall i :: outLen <= i < out.Length ==> out[i] == old(out[i])
  {
    hide Val, Pow, BitOp;
    ghost var ones := seq(|b|, _ => 0xFFFF_FFFF);
    ghost var before := out[..];
    var carry := 1;
    ghost var c := [1];
    q := [];
    for i := 0 to |b|
      invariant 0 <= carry <= 1 && |c| == i + 1 && c[0] == 1 && c[i] == carry && |q| == i
      invariant Carries(b[..i], -1, ones[..i], c, q, 0x1_0000_0000)
      invariant forall x :: 0 <= x < i ==> out[x] == BitOp(f, before[x], q[x])
      invariant forall x :: i <= x < out.Length ==> out[x] == before[x]
    {
      var temp := Wrap64(0xFFFF_FFFF - b[i] + carry);
      var digit: u32 := temp % 0x1_0000_0000;
      DigitOp(f, out[i], digit);
      out[i] := BitOp(f, out[i], digit);
      carry := temp / 0x1_0000_0000;
      Extend(b, ones, c, q, i, -1, digit, carry);
      q := q + [digit];
      c := c + [carry];
    }
    assert b[..|b|] == b && ones[..|b|] == ones;
    NegatedValue(b, c, q);
    q := SignExtend(q, b, outLen);
    if |b| < outLen {
      var digit: u32 := Wrap32(0xFFFF_FFFF + carry);
      DigitOp(f, out[|b|], digit);
      out[|b|] := BitOp(f, out[|b|], digit);
      for i := |b| + 1 to outLen
        invariant forall x :: 0 <= x < i ==> out[x] == BitOp(f, before[x], q[x])
        invariant forall x :: i <= x < out.Length ==> out[x] == before[x]
      {
        DigitOp(f, out[i], 0xFFFF_FFFF);
        out[i] := BitOp(f, out[i], 0xFFFF_FFFF);
      }
    }
  }

  /** Negated digits with ones above them stand for the negative integer. */
  lemma SignExtend(low: seq<u32>, b: seq<u32>, outLen: nat) returns (q: seq<u32>)
    requires |low| == |b| <= outLen && V32(b) > 0 && V32(low) == Complement(V32(b), |b|)
    ensures |q| == outLen && Extended(q, -1) == -V32(b) && q[..|b|] == low
    ensures forall i :: |b| <= i < outLen ==> q[i] == 0xFFFF_FFFF
    ensures forall i :: 0 <= i < |b| ==> q[i] == low[i]
  {
    hide Val, Pow;
    var ones := seq(outLen - |b|, _ => 0xFFFF_FFFF);
    q := low + ones;
    ValAppend(low, ones, 0x1_0000_0000);
    AllOnes(outLen - |b|);
    PowAdd(0x1_0000_0000, |b|, outLen - |b|);
    MulDist(Room(|b|), Room(outLen - |b|), 1);
  }

  // ---- the four operations ----

  /** No negative zero. */
  ghost predicate Canonical(sign: Sign, s: seq<int>) { sign == Negative ==> V32(s) > 0 }

  /** sign_bitwise */
  function SignOp(f: BitFn, s: Sign, t: Sign): Sign {
    if Bit1(f, if s == Negative then 1 else 0, if t == Negative then 1 else 0) == 1 then Negative else Positive
  }

  /** The shared part of bor, band and bxor: out is the magnitude of the result, or
      zero when the result is exactly minus the room of the digits. */
  method BitwiseCore(f: BitFn, m: seq<u32>, mSign: Sign, n: seq<u32>, nSign: Sign, out: array<u32>)
    returns (len: nat, sign: Sign)
    requires |m| <= 8 && |n| <= 8 && |m| <= out.Length && |n| <= out.Length
    requires Canonical(mSign, m) && Canonical(nSign, n)
    modifies out
    ensures len == (if |m| > |n| then |m| else |n|)
    ensures sign == SignOp(f, mSign, nSign)
    ensures Outcome(BitOp(f, Signed(mSign, m), Signed(nSign, n)), sign, V32(out[..len]), len)
    ensures f == Or ==> Signed(sign, out[..len]) == BitOp(f, Signed(mSign, m), Signed(nSign, n))
  {
    hide Val, Pow, BitOp;
    var (long, longSign, b, bSign) := if |m| > |n| then (m, mSign, n, nSign) else (n, nSign, m, mSign);
    len := |long|;
    var work := new u32[8];
    CondNeg(longSign, long, work);
    ghost var p := work[..len];
    TwosComplement(longSign, long, p);
    ghost var q := SignedBitwise(f, b, bSign, work, len);
    ghost var r := work[..len];
    sign := SignOp(f, mSign, nSign);
    DigitwiseValue(f, p, q, r, SignWord(longSign), SignWord(bSign));
    BitOpSignWords(f, longSign, bSign);
    BitOpComm(f, Signed(mSign, m), Signed(nSign, n));
    if f == Or { OrFits(long, longSign, p, b, bSign, q, r); }
    CondNeg(sign, work[..len], out);
    V32Bound(r);
    OutcomeOf(BitOp(f, Signed(longSign, long), Signed(bSign, b)), sign, V32(r), len);
    assert work[..len] == r;
  }

  /** What a result z with the given sign becomes in len digits. */
  ghost predicate Outcome(z: int, sign: Sign, v: int, len: nat) {
    && -Room(len) <= z < Room(len) && (sign == Negative <==> z < 0)
    && v == (if z == -Room(len) then 0 else if z < 0 then -z else z)
  }

  lemma TwosComplement(sign: Sign, s: seq<u32>, p: seq<u32>)
    requires Canonical(sign, s) && |p| == |s|
    requires V32(p) == if sign == Negative then Complement(V32(s), |s|) else V32(s)
    ensures Extended(p, SignWord(sign)) == Signed(sign, s)
  {
    hide Val, Pow;
    V32Bound(s);
  }

  lemma BitOpSignWords(f: BitFn, s: Sign, t: Sign)
    ensures BitOp(f, SignWord(s), SignWord(t)) == SignWord(SignOp(f, s, t))
    ensures SignOp(f, s, t) == SignOp(f, t, s)
  {}

  lemma OutcomeOf(z: int, sign: Sign, d: int, len: nat)
    requires 0 <= d < Room(len) && z == d + Room(len) * SignWord(sign)
    ensures Outcome(z, sign, if sign == Negative then Complement(d, len) else d, len)
  {}

  /** A negative or never needs one more digit than its longer operand. */
  lemma OrFits(a: seq<u32>, aSign: Sign, p: seq<u32>, b: seq<u32>, bSign: Sign, q: seq<u32>, r: seq<u32>)
    requires |b| <= |a| == |p| && Digitwise(Or, p, q, r)
    requires Extended(p, SignWord(aSign)) == Signed(aSign, a) && Extended(q, SignWord(bSign)) == Signed(bSign, b)
    ensures SignOp(Or, aSign, bSign) == Negative ==> V32(r) != 0
  {
    hide Val, Pow, BitOp;
    OrNonzero(p, q, r);
    V32Bound(a);
    V32Bound(b);
    PowMono(0x1_0000_0000, |b|, |a|);
  }

  /** An or of digits is zero only if both operands are. */
  lemma OrNonzero(p: seq<u32>, q: seq<u32>, r: seq<u32>)
    requires Digitwise(Or, p, q, r)
    ensures V32(r) == 0 ==> V32(p) == 0 && V32(q) == 0
  {
    hide BitOp;
    if V32(r) == 0 {
      ZeroDigits(r);
      forall i | 0 <= i < |r| ensures p[i] == 0 && q[i] == 0 { OrAtLeast(p[i], q[i]); }
      ValZeros(p, 0x1_0000_0000);
      ValZeros(q, 0x1_0000_0000);
    }
  }

  lemma ZeroDigits(r: seq<u32>)
    requires V32(r) == 0
    ensures forall i :: 0 <= i < |r| ==> r[i] == 0
  {
    hide Pow, Val;
    forall i | 0 <= i < |r| ensures r[i] == 0 {
      if r[i] != 0 { LongerIsLarger(r, i, 0x1_0000_0000); }
    }
  }

  /** count_and_normalize_sign */
  method CountAndNormalizeSign(num: seq<u32>, len: nat, sign: Sign) returns (count: nat, outSign: Sign)
    requires len <= |num|
    ensures count == Significant(num[..len])
    ensures outSign == if V32(num[..len]) == 0 then Positive else sign
    ensures V32(num[..count]) == V32(num[..len])
  {
    count := CountDigits(num, len);
    outSign := if count == 0 && sign == Negative then Positive else sign;
    SignificantValue(num[..len], 0x1_0000_0000);
    assert num[..len][..count] == num[..count];
    if count > 0 { LongerIsLarger(num[..len], count - 1, 0x1_0000_0000); }
  }

  /** intn_bor is exact on every pair of operands. */
  method Bor(m: seq<u32>, mSign: Sign, n: seq<u32>, nSign: Sign, out: array<u32>) returns (len: nat, sign: Sign)
    requires |m| <= 8 && |n| <= 8 && |m| <= out.Length && |n| <= out.Length
    requires Canonical(mSign, m) && Canonical(nSign, n)
    modifies out
    ensures len <= out.Length && Canonical(sign, out[..len])
    ensures Signed(sign, out[..len]) == BitOp(Or, Signed(mSign, m), Signed(nSign, n))
  {
    hide Val, Pow, BitOp;
    len, sign := BitwiseCore(Or, m, mSign, n, nSign, out);
  }

  /** What band, bxor and bnot leave: the exact result when its magnitude fits len
      digits, and otherwise zero; never negative zero. */
  ghost predicate ExactIfFits(z: int, sign: Sign, digits: seq<int>, len: nat) {
    && Canonical(sign, digits)
    && (Signed(sign, digits) == z <==> Abs(z) < Room(len))
    && (Abs(z) >= Room(len) ==> z == -Room(len) && digits == [])
  }

  lemma Normalized(z: int, sign: Sign, v: int, len: nat, sign': Sign, digits: seq<u32>)
    requires Outcome(z, sign, v, len) && V32(digits) == v && 0 < Room(len)
    requires sign' == (if v == 0 then Positive else sign)
    requires v == 0 ==> digits == []
    ensures ExactIfFits(z, sign', digits, len)
  {
    hide Val, Pow;
  }

  /** intn_band */
  method Band(m: seq<u32>, mSign: Sign, n: seq<u32>, nSign: Sign, out: array<u32>) returns (len: nat, sign: Sign)
    requires |m| <= 8 && |n| <= 8 && |m| <= out.Length && |n| <= out.Length
    requires Canonical(mSign, m) && Canonical(nSign, n)
    modifies out
    ensures len <= out.Length
    ensures ExactIfFits(BitOp(And, Signed(mSign, m), Signed(nSign, n)), sign, out[..len], Max(|m|, |n|))
    ensures Signed(sign, out[..len]) == BitOp(And, Signed(mSign, m), Signed(nSign, n)) <==>
              !BandLost(Signed(mSign, m), Signed(nSign, n), Max(|m|, |n|))
  {
    hide Val, Pow, BitOp, BandLost;
    var count, resSign := BitwiseCore(And, m, mSign, n, nSign, out);
    len, sign := Normalize(BitOp(And, Signed(mSign, m), Signed(nSign, n)), out, count, resSign);
    OperandRange(mSign, m, Max(|m|, |n|));
    OperandRange(nSign, n, Max(|m|, |n|));
    BandExact(Signed(mSign, m), Signed(nSign, n), Max(|m|, |n|));
  }

  /** intn_bxor */
  method Bxor(m: seq<u32>, mSign: Sign, n: seq<u32>, nSign: Sign, out: array<u32>) returns (len: nat, sign: Sign)
    requires |m| <= 8 && |n| <= 8 && |m| <= out.Length && |n| <= out.Length
    requires Canonical(mSign, m) && Canonical(nSign, n)
    modifies out
    ensures len <= out.Length
    ensures ExactIfFits(BitOp(Xor, Signed(mSign, m), Signed(nSign, n)), sign, out[..len], Max(|m|, |n|))
    ensures Signed(sign, out[..len]) == BitOp(Xor, Signed(mSign, m), Signed(nSign, n)) <==>
              !(mSign != nSign && V32(m) + V32(n) == Room(Max(|m|, |n|)))
  {
    hide Val, Pow, BitOp;
    var count, resSign := BitwiseCore(Xor, m, mSign, n, nSign, out);
    len, sign := Normalize(BitOp(Xor, Signed(mSign, m), Signed(nSign, n)), out, count, resSign);
    OperandRange(mSign, m, Max(|m|, |n|));
    OperandRange(nSign, n, Max(|m|, |n|));
    BxorExact(Signed(mSign, m), Signed(nSign, n), Max(|m|, |n|));
  }

  lemma OperandRange(sign: Sign, s: seq<u32>, len: nat)
    requires |s| <= len && Canonical(sign, s)
    ensures Abs(Signed(sign, s)) == V32(s) < Room(len) && (Signed(sign, s) < 0 <==> sign == Negative)
  {
    hide Val, Pow;
    V32Bound(s);
    PowMono(0x1_0000_0000, |s|, len);
  }

  /** Both operands are negative, and their two's complements in len digits share no bit. */
  ghost predicate BandLost(x: int, y: int, len: nat) {
    x < 0 && y < 0 && BitOp(And, Room(len) + x, Room(len) + y) == 0
  }

  /** Digits of an integer in two's complement where p is the room. */
  function LowPart(x: int, p: int): int { if x < 0 then p + x else x }

  function Minus(x: int): int { if x < 0 then 1 else 0 }

  /** A result is minus the whole room exactly if its sign bit is set and all others are not. */
  lemma MinusRoom(f: BitFn, x: int, y: int, k: nat, p: int)
    requires p == Pow(2, k) && Abs(x) < p && Abs(y) < p
    ensures BitOp(f, x, y) == -p <==> Bit1(f, Minus(x), Minus(y)) == 1 && BitOp(f, LowPart(x, p), LowPart(y, p)) == 0
  {
    hide BitOp, Pow, Bit1;
    var u, v := LowPart(x, p), LowPart(y, p);
    SignBits(f, Minus(x), Minus(y));
    TwoParts(x, p);
    TwoParts(y, p);
    BitOpSplit(f, u, -Minus(x), v, -Minus(y), k);
    BitOpRange(f, u, v, k);
    TopBit(BitOp(f, x, y), BitOp(f, u, v), p, Bit1(f, Minus(x), Minus(y)));
  }

  lemma TwoParts(x: int, p: int)
    requires Abs(x) < p
    ensures x == LowPart(x, p) + p * -Minus(x) && 0 <= LowPart(x, p) < p
  {}

  lemma TopBit(z: int, low: int, p: int, bit: int)
    requires 0 <= low < p && 0 <= bit <= 1 && z == low + p * -bit
    ensures z == -p <==> bit == 1 && low == 0
  {}

  lemma SignBits(f: BitFn, s: int, t: int)
    requires 0 <= s < 2 && 0 <= t < 2
    ensures BitOp(f, -s, -t) == -Bit1(f, s, t) && 0 <= Bit1(f, s, t) <= 1
  {}

  /** band loses its result exactly on these operands. */
  lemma BandExact(x: int, y: int, len: nat)
    requires Abs(x) < Room(len) && Abs(y) < Room(len)
    ensures BitOp(And, x, y) == -Room(len) <==> BandLost(x, y, len)
  {
    hide BitOp, Pow;
    RoomIsPower(len);
    MinusRoom(And, x, y, 32 * len, Room(len));
  }

  /** bxor loses its result exactly if the signs differ and the magnitudes add up to the room. */
  lemma BxorExact(x: int, y: int, len: nat)
    requires Abs(x) < Room(len) && Abs(y) < Room(len)
    ensures BitOp(Xor, x, y) == -Room(len) <==> (x < 0) != (y < 0) && Abs(x) + Abs(y) == Room(len)
  {
    hide BitOp, Pow;
    RoomIsPower(len);
    MinusRoom(Xor, x, y, 32 * len, Room(len));
    XorZero(LowPart(x, Room(len)), LowPart(y, Room(len)));
  }

  lemma {:induction false} XorZero(x: int, y: int)
    ensures BitOp(Xor, x, y) == 0 <==> x == y
    decreases Mag(x) + Mag(y)
  {
    if Mag(x) != 0 || Mag(y) != 0 {
      XorZero(x / 2, y / 2);
    }
  }

  method Normalize(ghost z: int, out: array<u32>, count: nat, resSign: Sign) returns (len: nat, sign: Sign)
    requires count <= out.Length && Outcome(z, resSign, V32(out[..count]), count)
    ensures len <= out.Length && ExactIfFits(z, sign, out[..len], count)
  {
    hide Val, Pow;
    len, sign := CountAndNormalizeSign(out[..], count, resSign);
    assert out[..][..count] == out[..count] && out[..][..len] == out[..len];
    ZeroHasNoDigits(out[..count]);
    Normalized(z, resSign, V32(out[..count]), count, sign, out[..len]);
  }

  lemma ZeroHasNoDigits(s: seq<u32>)
    ensures V32(s) == 0 ==> Significant(s) == 0
  {
    hide Val, Pow;
    if V32(s) == 0 { ZeroDigits(s); }
  }

  /** Two one-digit negatives whose and is minus 2^32: band answers zero for it. */
  lemma BandOverflows()
    ensures Signed(Negative, [0x8000_0000]) == -0x8000_0000 && Signed(Negative, [0x8000_0001]) == -0x8000_0001
    ensures BitOp(And, -0x8000_0000, -0x8000_0001) == -0x1_0000_0000
    ensures forall sign, r :: ExactIfFits(BitOp(And, -0x8000_0000, -0x8000_0001), sign, r, 1) ==> r == []
  {
    Single(0x8000_0000);
    Single(0x8000_0001);
    Pow32();
    assert Pow(2, 32) == 2 * Pow(2, 31);
    AndZero(0x7FFF_FFFF);
    BitOpSplit(And, 0, -1, 0x7FFF_FFFF, -2, 31);
    assert BitOp(And, -1, -2) == -2;
    assert Room(1) == 0x1_0000_0000;
  }

  /** 2^32 - 1 bxor -1 is minus 2^32: bxor answers zero for it. */
  lemma BxorOverflows()
    ensures Signed(Positive, [0xFFFF_FFFF]) == 0xFFFF_FFFF && Signed(Negative, [1]) == -1
    ensures BitOp(Xor, 0xFFFF_FFFF, -1) == -0x1_0000_0000
    ensures forall sign, r :: ExactIfFits(BitOp(Xor, 0xFFFF_FFFF, -1), sign, r, 1) ==> r == []
  {
    Single(0xFFFF_FFFF);
    Single(1);
    OneRoom();
    hide Val, Pow, BitOp;
    BxorExact(0xFFFF_FFFF, -1, 1);
  }

  /** bnot of 2^32 - 1 is minus 2^32: bnot answers zero for it. */
  lemma BnotOverflows(sign: Sign, r: seq<int>)
    requires ExactIfFits(-Signed(Positive, [0xFFFF_FFFF]) - 1, sign, r, 1)
    ensures Signed(Positive, [0xFFFF_FFFF]) == 0xFFFF_FFFF && r == []
  {
    Single(0xFFFF_FFFF);
    OneRoom();
  }

  lemma OneRoom()
    ensures Room(1) == 0x1_0000_0000
  {}

  // ---- complement ----

  /** neg_and_count_in_place */
  method NegInPlace(out: array<u32>, len: nat) returns (count: nat)
    requires len <= out.Length
    modifies out
    ensures V32(out[..len]) == Complement(old(V32(out[..len])), len)
    ensures count == Significant(out[..len])
    ensures forall i :: len <= i < out.Length ==> out[i] == old(out[i])
  {
    hide Val, Pow;
    ghost var before := out[..len];
    ghost var ones := seq(len, _ => 0xFFFF_FFFF);
    var carry := 1;
    ghost var c := [1];
    var last := -1;
    for i := 0 to len
      invariant 0 <= carry <= 1 && |c| == i + 1 && c[0] == 1 && c[i] == carry
      invariant Carries(before[..i], -1, ones[..i], c, out[..i], 0x1_0000_0000)
      invariant forall x :: i <= x < len ==> out[x] == before[x]
      invariant forall x :: len <= x < out.Length ==> out[x] == old(out[x])
      invariant -1 <= last < i && (last >= 0 ==> out[last] != 0) && (forall x :: last < x < i ==> out[x] == 0)
    {
      var temp := Wrap64(0xFFFF_FFFF - out[i] + carry);
      ghost var done := out[..i];
      if temp % 0x1_0000_0000 != 0 {
        last := i;
      }
      out[i] := temp % 0x1_0000_0000;
      carry := temp / 0x1_0000_0000;
      Extend(before, ones, c, done, i, -1, out[i], carry);
      assert out[..i + 1] == done + [out[i]];
      c := c + [carry];
    }
    assert before[..len] == before && ones[..len] == ones;
    NegatedValue(before, c, out[..len]);
    count := last + 1;
    SignificantUnique(out[..len], count);
  }

  lemma SignificantUnique(s: seq<int>, k: nat)
    requires k <= |s| && (k > 0 ==> s[k - 1] != 0) && (forall i :: k <= i < |s| ==> s[i] == 0)
    ensures Significant(s) == k
  {}

  /** intn_bnot: -x - 1, whose bits are those of x inverted (NotBit). */
  method Bnot(m: seq<u32>, mSign: Sign, out: array<u32>) returns (len: nat, sign: Sign)
    requires |m| <= out.Length && Canonical(mSign, m)
    modifies out
    ensures len <= out.Length
    ensures ExactIfFits(-Signed(mSign, m) - 1, sign, out[..len], |m|)
    ensures Signed(sign, out[..len]) == -Signed(mSign, m) - 1 <==> !(mSign == Positive && V32(m) == Room(|m|) - 1)
  {
    hide Val, Pow;
    CondNeg(mSign, m, out);
    ghost var v := V32(out[..|m|]);
    V32Bound(m);
    InvertInPlace(out, |m|);
    var resSign := Flip(mSign);
    if resSign == Negative {
      var _ := NegInPlace(out, |m|);
    }
    len, sign := Normalize(-Signed(mSign, m) - 1, out, |m|, resSign);
  }

  method InvertInPlace(out: array<u32>, len: nat)
    requires len <= out.Length
    modifies out
    ensures V32(out[..len]) == Room(len) - 1 - old(V32(out[..len]))
    ensures forall i :: len <= i < out.Length ==> out[i] == old(out[i])
  {
    hide Val, Pow;
    ghost var before := out[..len];
    for i := 0 to len
      invariant forall x :: 0 <= x < i ==> out[x] == 0xFFFF_FFFF - before[x]
      invariant forall x :: i <= x < out.Length ==> out[x] == old(out[x])
    {
      out[i] := 0xFFFF_FFFF - out[i];
    }
    InvertedValue(before, out[..len]);
  }

  lemma {:induction false} InvertedValue(s: seq<int>, t: seq<int>)
    requires |s| == |t| && forall i :: 0 <= i < |s| ==> t[i] == 0xFFFF_FFFF - s[i]
    ensures V32(t) == Room(|s|) - 1 - V32(s)
  {
    if |s| > 0 { InvertedValue(s[1..], t[1..]); }
  }
}
