/** Shifts of multi-precision integers by any number of bits. */
module IntnShift {
  import opened Prelude
  import opened Digits
  import opened Bits
  import opened Intn
  import opened IntnBits

  /** INTN_BSL_MAX_RES_LEN */
  const BSL_MAX: nat := 8

  /** size_align_up_pow2(n, 32) / 32 */
  function DigitsFor(bits: nat): nat { (bits + 31) / 32 }

  /** Strictly between consecutive powers of two. */
  ghost predicate HasBits(v: int, e: nat) { e >= 1 && Pow(2, e - 1) <= v < Pow(2, e) }

  /** Bit length of a nonzero magnitude, read off its top digit. */
  method EffectiveBits(num: seq<u32>) returns (counted: nat, bits: nat)
    requires V32(num) > 0
    ensures counted == Significant(num) >= 1
    ensures HasBits(V32(num), bits) && DigitsFor(bits) == counted
    ensures HasBits(num[counted - 1], bits - 32 * (counted - 1)) && 32 * (counted - 1) < bits
  {
    counted := CountDigits(num, |num|);
    assert num[..|num|] == num;
    assert counted > 0 by { SignificantValue(num, 0x1_0000_0000); assert V32(num[..0]) == 0; }
    var z := LeadingZeros32(num[counted - 1]);
    TopDigitBits(num[counted - 1], z);
    bits := (counted - 1) * 32 + (32 - z);
    hide Val, Pow;
    TopDigitDecides(num, counted, 32 - z);
  }

  lemma TopDigitBits(x: int, z: nat)
    requires z <= 31 && 0x8000_0000 <= Shl(x, z) < 0x1_0000_0000
    ensures HasBits(x, 32 - z)
  {
    hide Pow;
    Pow32();
    PowAdd(2, z, 32 - z);
    PowAdd(2, z, 31 - z);
    PowAdd(2, 1, 31);
    Pow1();
    MulComm(x, Pow(2, z));
    MulCompare(Pow(2, z), Pow(2, 31 - z), x);
    MulCompare(Pow(2, z), x, Pow(2, 32 - z));
  }

  lemma Pow1()
    ensures Pow(2, 1) == 2 && Pow(2, 0) == 1
  {}

  lemma TopDigitDecides(num: seq<u32>, counted: nat, b: nat)
    requires 1 <= counted == Significant(num) && HasBits(num[counted - 1], b)
    ensures HasBits(V32(num), 32 * (counted - 1) + b)
  {
    var k := counted - 1;
    hide Val, Pow;
    SignificantValue(num, 0x1_0000_0000);
    ValStep(num, k, 0x1_0000_0000);
    V32Bound(num[..k]);
    RoomIsPower(k);
    PowAdd(2, 32 * k, b);
    PowAdd(2, 32 * k, b - 1);
    var top: int := num[k];
    MulMono(Room(k), Pow(2, b - 1), top);
    MulMono(Room(k), top + 1, Pow(2, b));
    MulDist(Room(k), top, 1);
  }

  /** Bit lengths add under a shift. */
  lemma ShiftedBits(v: int, e: nat, n: nat, limit: nat)
    requires HasBits(v, e)
    ensures v * Pow(2, n) >= Pow(2, limit) <==> e + n > limit
  {
    hide Pow;
    PowAdd(2, n, e);
    PowAdd(2, n, e - 1);
    MulComm(v, Pow(2, n));
    MulCompare(Pow(2, n), Pow(2, e - 1), v);
    MulCompare(Pow(2, n), v, Pow(2, e));
    if e + n > limit { PowMono(2, limit, n + (e - 1)); } else { PowMono(2, n + e, limit); }
  }

  // ---- left ----

  /** z zero digits below the digits of t. */
  lemma ZerosBelow(out: seq<int>, z: nat, t: seq<int>)
    requires |out| == z + |t| && out[z..] == t && (forall i :: 0 <= i < z ==> out[i] == 0)
    ensures V32(out) == Room(z) * V32(t)
  {
    hide Val, Pow;
    ValSplit(out, z, 0x1_0000_0000);
    ValZeros(out[..z], 0x1_0000_0000);
  }

  /** Whole digits and remaining bits of a shift. */
  lemma SplitShift(v: int, n: nat)
    ensures v * Pow(2, n) == Room(n / 32) * (Pow(2, n % 32) * v)
  {
    hide Pow;
    RoomIsPower(n / 32);
    PowAdd(2, 32 * (n / 32), n % 32);
    MulComm(v, Pow(2, n));
    MulAssoc(Room(n / 32), Pow(2, n % 32), v);
  }

  /** The bit-shifting part of intn_bsl: c digits of num above z zero digits. */
  method ShiftLeftInto(num: seq<u32>, c: nat, s: nat, out: array<u32>, z: nat) returns (len: nat)
    requires 1 <= c <= |num| && 0 < s < 32 && z + c <= out.Length
    requires Shr(num[c - 1], 32 - s) != 0 ==> z + c < out.Length
    requires forall i :: 0 <= i < z ==> out[i] == 0
    modifies out
    ensures len == z + c + (if Shr(num[c - 1], 32 - s) != 0 then 1 else 0)
    ensures V32(out[..len]) == Room(z) * (Pow(2, s) * V32(num[..c]))
  {
    Pow32();
    hide Val, Pow, Funnel, Shr;
    var last := 0;
    for i := 0 to c
      invariant last == Below(num, i)
      invariant forall x :: 0 <= x < z ==> out[x] == 0
      invariant forall x :: 0 <= x < i ==> out[z + x] == Funnel(num[x], Below(num, x), s, 32)
    {
      var digit := num[i];
      FunnelCarry(num, i, s, 32);
      out[z + i] := Funnel(digit, last, s, 32);
      last := digit;
    }
    NothingLeaves32(last, s);
    var lastOut := Shr(last, 32 - s);
    len := z + c;
    if lastOut != 0 {
      out[z + c] := lastOut;
      len := z + c + 1;
    }
    ShiftLeftDone(out[..len], z, num, c, s);
  }

  lemma ShiftLeftDone(o: seq<u32>, z: nat, num: seq<u32>, c: nat, s: nat)
    requires 1 <= c <= |num| && 0 < s < 32
    requires |o| == z + c + (if Shr(num[c - 1], 32 - s) != 0 then 1 else 0)
    requires forall x :: 0 <= x < z ==> o[x] == 0
    requires forall x :: 0 <= x < c ==> o[z + x] == Funnel(num[x], Below(num, x), s, 32)
    requires Shr(num[c - 1], 32 - s) != 0 ==> o[z + c] == Shr(num[c - 1], 32 - s)
    ensures V32(o) == Room(z) * (Pow(2, s) * V32(num[..c]))
  {
    Pow32();
    hide Val, Pow, Funnel, Shr;
    var shifted := o[z..z + c];
    assert num[..c][..c] == num[..c];
    ShiftedLeftValue(shifted, num[..c], s, 32);
    if Shr(num[c - 1], 32 - s) != 0 {
      assert o[z..] == shifted + [o[z + c]];
      ValSnoc(shifted, o[z + c], 0x1_0000_0000);
    } else {
      assert o[z..] == shifted;
    }
    ZerosBelow(o, z, o[z..]);
  }

  lemma NothingLeaves32(x: u32, s: nat)
    requires 0 < s < 32
    ensures 0 <= Shr(x, 32 - s) < 0x1_0000_0000
  {
    Pow32();
    hide Pow;
    ShlSplit(x, s, 32);
    PowMono(2, s, 32);
  }

  /** The top digit spills over exactly when its bits and the shift exceed 32. */
  lemma SpillBits(x: int, b: nat, s: nat)
    requires HasBits(x, b) && b <= 32 && 0 < s < 32
    ensures Shr(x, 32 - s) != 0 <==> b + s > 32
  {
    hide Pow;
    QuotientBound(x, Pow(2, 32 - s), 1);
    QuotientBound(x, Pow(2, 32 - s), 0);
    if b + s > 32 { PowMono(2, 32 - s, b - 1); } else { PowMono(2, b, 32 - s); }
  }

  /** memcpy of all digits of num above z zero digits. */
  method CopyInto(num: seq<u32>, out: array<u32>, z: nat)
    requires z + |num| <= out.Length && (forall i :: 0 <= i < z ==> out[i] == 0)
    modifies out
    ensures V32(out[..z + |num|]) == Room(z) * V32(num)
  {
    hide Val, Pow;
    for i := 0 to |num|
      invariant forall x :: 0 <= x < z ==> out[x] == 0
      invariant forall x :: 0 <= x < i ==> out[z + x] == num[x]
    {
      out[z + i] := num[i];
    }
    assert out[..z + |num|][z..] == num;
    ZerosBelow(out[..z + |num|], z, num);
  }

  /** intn_bsl: reports an overflow exactly when the result needs more than 256 bits,
      and otherwise writes it. With leading zeros and a shift by whole digits the
      length may exceed eight although the value fits. */
  method Bsl(num: seq<u32>, n: nat, out: array<u32>) returns (len: nat)
    requires V32(num) > 0 && BSL_MAX + |num| - Significant(num) <= out.Length
    modifies out
    ensures V32(num) * Pow(2, n) >= Pow(2, 256) ==> len > BSL_MAX && out[..] == old(out[..])
    ensures V32(num) * Pow(2, n) < Pow(2, 256) ==>
              (len <= BSL_MAX <==> n % 32 != 0 || n / 32 + |num| <= BSL_MAX || Significant(num) == |num|)
    ensures V32(num) * Pow(2, n) < Pow(2, 256) ==>
              len <= out.Length && V32(out[..len]) == V32(num) * Pow(2, n)
  {
    hide Val, Pow, Shr;
    var counted, bits := EffectiveBits(num);
    var digits := DigitsFor(bits + n);
    ShiftedBits(V32(num), bits, n, 256);
    SignificantValue(num, 0x1_0000_0000);
    if digits > BSL_MAX {
      return digits;
    }
    var zeros := if n / 32 <= BSL_MAX then n / 32 else BSL_MAX;
    for i := 0 to zeros
      invariant forall x :: 0 <= x < i ==> out[x] == 0
    {
      out[i] := 0;
    }
    SplitShift(V32(num), n);
    if n % 32 == 0 {
      CopyInto(num, out, zeros);
      len := zeros + |num|;
      Pow1();
    } else {
      SpillBits(num[counted - 1], bits - 32 * (counted - 1), n % 32);
      len := ShiftLeftInto(num, counted, n % 32, out, zeros);
    }
  }

  // ---- right ----

  /** A right funnel by no bits keeps the digit. */
  lemma FunnelByNone(hi: u32, lo: u32)
    ensures Funnel(hi, lo, 32, 32) == lo
  {
    Pow32();
    Pow1();
    hide Pow, Funnel;
    FunnelRightCarry(hi, lo, 0, 32);
  }

  /** bsru: the digits of num from bit n on, o being what the shift produces; a zero
      top digit is not written. */
  method Bsru(num: seq<u32>, n: nat, last: u32, out: array<u32>) returns (ghost o: seq<u32>)
    requires n / 32 < |num| && |num| - n / 32 <= out.Length
    modifies out
    ensures |o| == |num| - n / 32 && ShiftedRight(o, num[n / 32..], last, n % 32, 32)
    ensures forall i :: 0 <= i < |o| - 1 ==> out[i] == o[i]
    ensures out[|o| - 1] == o[|o| - 1] || (n % 32 != 0 && o[|o| - 1] == 0)
  {
    Pow32();
    hide Pow, Funnel;
    var s, discarded := n % 32, n / 32;
    ghost var d := num[discarded..];
    if s == 0 {
      for i := 0 to |num| - discarded
        invariant forall x :: 0 <= x < i ==> out[x] == num[discarded + x]
      {
        out[i] := num[discarded + i];
      }
      o := d;
      forall i | 0 <= i < |d| ensures o[i] == Funnel(Above(d, last, i), d[i], 32, 32) {
        FunnelByNone(Above(d, last, i), d[i]);
      }
      return;
    }
    o := [];
    var i := discarded;
    while i < |num| - 1
      invariant discarded <= i <= |num| - 1 && |o| == i - discarded
      invariant forall x :: 0 <= x < |o| ==> out[x] == o[x] == Funnel(Above(d, last, x), d[x], 32 - s, 32)
    {
      FunnelRightCarry(num[i + 1], num[i], s, 32);
      out[i - discarded] := Funnel(num[i + 1], num[i], 32 - s, 32);
      o := o + [out[i - discarded]];
      i := i + 1;
    }
    FunnelRightCarry(last, num[i], s, 32);
    var lastOut: u32 := Funnel(last, num[i], 32 - s, 32);
    if lastOut != 0 {
      out[i - discarded] := lastOut;
    }
    o := o + [lastOut];
  }

  /** Digits above the discarded ones, shifted: the quotient by 2^n of the string
      num with the word sw (all zeros or all ones) repeated above it. */
  lemma RightQuotient(num: seq<u32>, n: nat, o: seq<u32>, sw: int)
    requires n / 32 < |num| && (sw == 0 || sw == -1)
    requires ShiftedRight(o, num[n / 32..], if sw == 0 then 0 else 0xFFFF_FFFF, n % 32, 32)
    ensures Extended(num, sw) / Pow(2, n) == Extended(o, sw)
  {
    var d, s := n / 32, n % 32;
    hide *;
    Discard(num, d, sw);
    ShiftBits(num[d..], s, o, sw);
    V32Bound(num[..d]);
    DivMod(num[d], Pow(2, s));
    WholeAndBits(n);
    RightParts(V32(num[..d]), Room(d), Pow(2, s), num[d] % Pow(2, s), Extended(num[d..], sw), Extended(o, sw));
    DivModUnique(Extended(num, sw), Pow(2, n), Extended(o, sw), V32(num[..d]) + Room(d) * (num[d] % Pow(2, s)));
  }

  lemma WholeAndBits(n: nat)
    ensures Room(n / 32) > 0 && Room(n / 32) * Pow(2, n % 32) == Pow(2, n)
  {
    hide Pow;
    RoomIsPower(n / 32);
    PowAdd(2, 32 * (n / 32), n % 32);
  }

  /** The low d digits, apart. */
  lemma Discard(num: seq<u32>, d: nat, sw: int)
    requires d <= |num|
    ensures Extended(num, sw) == V32(num[..d]) + Room(d) * Extended(num[d..], sw)
    ensures Room(|num[..d]|) == Room(d)
  {
    hide Pow, Val;
    ValSplit(num, d, 0x1_0000_0000);
    PowAdd(0x1_0000_0000, d, |num| - d);
    MulDist(Room(d), V32(num[d..]), Room(|num| - d) * sw);
    MulAssoc(Room(d), Room(|num| - d), sw);
  }

  /** Fewer than 32 bits, apart. */
  lemma ShiftBits(t: seq<u32>, s: nat, o: seq<u32>, sw: int)
    requires |t| > 0 && s < 32 && (sw == 0 || sw == -1)
    requires ShiftedRight(o, t, if sw == 0 then 0 else 0xFFFF_FFFF, s, 32)
    ensures |o| == |t| && Extended(t, sw) == Pow(2, s) * Extended(o, sw) + t[0] % Pow(2, s)
  {
    var hi := if sw == 0 then 0 else 0xFFFF_FFFF;
    Pow32();
    hide Pow, Val, Funnel;
    ShiftedRightValue(o, t, hi, s, 32);
    TopWord(s, sw, hi);
    BitsAlgebra(V32(t), Room(|t|), Pow(2, s), V32(o), t[0] % Pow(2, s), sw, hi % Pow(2, s));
  }

  lemma BitsAlgebra(t: int, rt: int, p: int, o: int, low: int, sw: int, h: int)
    requires h == -sw * (p - 1) && (sw == 0 || sw == -1) && t + rt * h == p * o + low
    ensures t + rt * sw == p * (o + rt * sw) + low
  {
    if sw == -1 {
      MulDist(rt, p, 1);
      MulDist(p, o, rt);
      MulComm(p, rt);
    }
  }

  lemma TopWord(s: nat, sw: int, hi: int)
    requires s < 32 && ((sw == 0 && hi == 0) || (sw == -1 && hi == 0xFFFF_FFFF))
    ensures hi % Pow(2, s) == -sw * (Pow(2, s) - 1)
  {
    hide Pow;
    Pow32();
    PowAdd(2, s, 32 - s);
    if sw == 0 { DivModUnique(0, Pow(2, s), 0, 0); } else { OnesBelow(hi, Pow(2, s), Pow(2, 32 - s)); }
  }

  lemma OnesBelow(hi: int, p: int, q: int)
    requires p > 0 && hi + 1 == p * q
    ensures hi % p == p - 1
  {
    MulDist(p, q, 1);
    DivModUnique(hi, p, q - 1, p - 1);
  }

  lemma RightParts(a: int, rd: int, p: int, low: int, t: int, o: int)
    requires 0 <= a < rd && 0 <= low < p && t == p * o + low
    ensures a + rd * t == (rd * p) * o + (a + rd * low)
    ensures 0 <= a + rd * low < rd * p
  {
    MulDist(rd, p * o, low);
    MulAssoc(rd, p, o);
    MulMono(rd, 0, low);
    MulMono(rd, low + 1, p);
    MulDist(rd, low, 1);
  }

  /** Rounding towards minus infinity, as Erlang's bsr does. */
  ghost function FloorShift(x: int, n: nat): int { x / Pow(2, n) }

  /** Shifting out every bit leaves the sign. */
  lemma AllShiftedOut(v: int, e: nat, n: nat)
    requires HasBits(v, e) && n >= e
    ensures FloorShift(v, n) == 0 && FloorShift(-v, n) == -1
  {
    hide Pow;
    PowMono(2, e, n);
    DivModUnique(v, Pow(2, n), 0, v);
    DivModUnique(-v, Pow(2, n), -1, Pow(2, n) - v);
  }

  /** The shifted magnitude needs no more bits than are left, or is one power of two. */
  lemma ShiftedRange(v: int, e: nat, n: nat)
    requires HasBits(v, e) && n < e
    ensures 0 < FloorShift(v, n) < Room(DigitsFor(e - n))
    ensures -Room(DigitsFor(e - n)) <= FloorShift(-v, n) < 0
  {
    hide Pow;
    var k := DigitsFor(e - n);
    RoomIsPower(k);
    PowMono(2, e - n, 32 * k);
    PowAdd(2, n, e - n);
    PowMono(2, n, e - 1);
    var p: int, q: int := Pow(2, n), Pow(2, e - n);
    QuotientBound(v, p, 1);
    QuotientBound(v, p, q);
    QuotientBound(-v, p, 0);
    QuotientBound(-v, p, -q);
    NegMul(p, q);
  }

  /** Low digits of a negative result, negated in place. */
  lemma NegativeTail(f: int, o: seq<u32>, r: nat)
    requires r <= |o| && f == Extended(o, -1) && -Room(r) <= f < 0
    ensures Complement(V32(o[..r]), r) == if -f < Room(r) then -f else 0
  {
    hide Val, Pow;
    ValSplit(o, r, 0x1_0000_0000);
    V32Bound(o[..r]);
    PowAdd(0x1_0000_0000, r, |o| - r);
    var low, hi, room := V32(o[..r]), V32(o[r..]) - Room(|o| - r), Room(r);
    MulDist(room, V32(o[r..]), Room(|o| - r));
    assert f == low + room * hi;
    if hi <= -2 { MulMono(room, hi, -2); }
    if hi >= 0 { MulMono(room, 0, hi); }
  }

  /** Bit length of a magnitude. */
  function BitLength(v: nat): nat { if v == 0 then 0 else 1 + BitLength(v / 2) }

  lemma {:induction false} BitLengthIs(v: nat, e: nat)
    requires HasBits(v, e)
    ensures BitLength(v) == e
  {
    if e > 1 {
      assert HasBits(v / 2, e - 1);
      BitLengthIs(v / 2, e - 1);
    } else {
      Pow1();
      assert v == 1 && BitLength(0) == 0;
    }
  }

  /** Digits that intn_bsr returns for a magnitude. */
  function ShiftedLength(v: nat, n: nat): nat {
    if n >= BitLength(v) then 1 else DigitsFor(BitLength(v) - n)
  }

  /** What intn_bsr answers: as many digits as the bits left need, holding the magnitude of
      the result if it fits, and otherwise zero. */
  ghost predicate BsrAnswers(num: seq<u32>, sign: Sign, n: nat, r: seq<u32>) {
    V32Bound(num);
    var z := FloorShift(Signed(sign, num), n);
    && |r| == ShiftedLength(V32(num), n)
    && V32(r) == if Abs(z) < Room(|r|) then Abs(z) else 0
  }

  /** Rounding away from zero makes one bit more than fills the digits kept. */
  ghost predicate RoundsOver(v: int, e: nat, n: nat) {
    n < e && (e - n) % 32 == 0 && v + Pow(2, n) > Pow(2, e)
  }

  /** The answer is floor(x / 2^n) unless x is negative, the bits left fill whole digits and
      rounding carries into the next one. */
  lemma BsrExact(num: seq<u32>, sign: Sign, n: nat, r: seq<u32>)
    requires V32(num) > 0 && BsrAnswers(num, sign, n, r)
    ensures var v := V32(num); var e := BitLength(v);
            V32(r) == Abs(FloorShift(Signed(sign, num), n)) <==>
              !(sign == Negative && RoundsOver(v, e, n))
  {
    hide Val, Pow, FloorShift, Room, ShiftedLength, BitLength;
    FitsUnlessCarried(V32(num), n);
    RoomPositive(ShiftedLength(V32(num), n));
  }

  lemma RoomPositive(k: nat)
    ensures Room(k) > 0
  {}

  lemma FitsUnlessCarried(v: int, n: nat)
    requires v > 0
    ensures Abs(FloorShift(v, n)) < Room(ShiftedLength(v, n))
    ensures Abs(FloorShift(-v, n)) < Room(ShiftedLength(v, n)) <==> !RoundsOver(v, BitLength(v), n)
  {
    hide Pow, FloorShift;
    var e := BitLength(v);
    LengthHasBits(v);
    if n >= e {
      AllShiftedOut(v, e, n);
      RoomOne();
    } else {
      ShiftedRange(v, e, n);
      RoundsUp(v, e, n);
    }
  }

  lemma {:induction false} LengthHasBits(v: nat)
    requires v > 0
    ensures HasBits(v, BitLength(v))
  {
    if v > 1 { LengthHasBits(v / 2); } else { assert BitLength(0) == 0; }
  }

  /** Rounding away from zero reaches the next power of 2^32 only from just below it. */
  lemma RoundsUp(v: int, e: nat, n: nat)
    requires HasBits(v, e) && n < e
    ensures -FloorShift(-v, n) == Room(DigitsFor(e - n)) <==> (e - n) % 32 == 0 && v + Pow(2, n) > Pow(2, e)
  {
    hide Pow;
    ReachesPower(v, e, n);
    RoomIsPower(DigitsFor(e - n));
    PowerOrMore(e - n);
  }

  lemma ReachesPower(v: int, e: nat, n: nat)
    requires HasBits(v, e) && n < e
    ensures -FloorShift(-v, n) <= Pow(2, e - n)
    ensures -FloorShift(-v, n) == Pow(2, e - n) <==> v + Pow(2, n) > Pow(2, e)
  {
    hide Pow;
    PowAdd(2, n, e - n);
    var p: int, q: int := Pow(2, n), Pow(2, e - n);
    NegMul(p, q);
    MulDist(p, 1, q);
    QuotientBound(-v, p, -q);
    QuotientBound(-v, p, 1 - q);
  }

  lemma PowerOrMore(b: nat)
    ensures if b % 32 == 0 then 32 * DigitsFor(b) == b else Pow(2, b) < Pow(2, 32 * DigitsFor(b))
  {
    hide Pow;
    if b % 32 != 0 {
      PowMono(2, b + 1, 32 * DigitsFor(b));
      PowAdd(2, b, 1);
      Pow1();
    }
  }

  /** intn_bsr: floor(x / 2^n) for either sign, in the digits that the bits left need. */
  method Bsr(num: seq<u32>, sign: Sign, n: nat, out: array<u32>) returns (len: nat)
    requires V32(num) > 0 && Significant(num) <= 11 && |num| <= out.Length
    modifies out
    ensures 1 <= len <= out.Length && BsrAnswers(num, sign, n, out[..len])
    ensures sign == Positive ==> V32(out[..len]) == FloorShift(V32(num), n)
  {
    hide Val, Pow, FloorShift, Shr;
    var counted, bits := EffectiveBits(num);
    SignificantValue(num, 0x1_0000_0000);
    BitLengthIs(V32(num), bits);
    if n >= bits {
      AllShiftedOut(V32(num), bits, n);
      out[0] := if sign == Positive then 0 else 1;
      Single(out[0]);
      assert out[..1] == [out[0]];
      RoomOne();
      return 1;
    }
    len := DigitsFor(bits - n);
    ShiftedRange(V32(num), bits, n);
    if sign == Positive {
      ShiftPositive(num[..counted], bits, n, out);
    } else {
      ShiftNegative(num[..counted], bits, n, out);
    }
  }

  lemma RoomOne()
    ensures Room(1) == 0x1_0000_0000
  {}

  method ShiftPositive(num: seq<u32>, bits: nat, n: nat, out: array<u32>)
    requires |num| >= 1 && 32 * (|num| - 1) < bits <= 32 * |num| && n < bits && |num| <= out.Length
    requires HasBits(num[|num| - 1], bits - 32 * (|num| - 1))
    modifies out
    ensures V32(out[..DigitsFor(bits - n)]) == FloorShift(V32(num), n)
  {
    hide Val, Pow, Funnel, Shr, Shl;
    ghost var o := Bsru(num, n, 0, out);
    RightQuotient(num, n, o, 0);
    var k := |num| - n / 32;
    TopAfterShift(num, n, o, bits);
    ghost var r := DigitsFor(bits - n);
    assert out[..r] == o[..r];
    CutTop(o, r);
  }

  lemma CutTop(o: seq<u32>, r: nat)
    requires r <= |o| && (forall i :: r <= i < |o| ==> o[i] == 0)
    ensures V32(o[..r]) == V32(o) == Extended(o, 0)
  {
    ValSplit(o, r, 0x1_0000_0000);
    ValZeros(o[r..], 0x1_0000_0000);
  }

  /** The top digit of a positive shift is zero exactly when one digit fewer is kept. */
  lemma TopAfterShift(num: seq<u32>, n: nat, o: seq<u32>, bits: nat)
    requires |num| >= 1 && 32 * (|num| - 1) < bits <= 32 * |num| && n < bits
    requires HasBits(num[|num| - 1], bits - 32 * (|num| - 1))
    requires ShiftedRight(o, num[n / 32..], 0, n % 32, 32)
    ensures |o| - 1 <= DigitsFor(bits - n) <= |o|
    ensures o[|o| - 1] != 0 <==> DigitsFor(bits - n) == |o|
  {
    hide Pow, Shr, Shl, Funnel;
    var s, top := n % 32, num[|num| - 1];
    Pow32();
    assert o[|o| - 1] == Funnel(0, top, 32 - s, 32);
    FunnelTop(top, s);
    if s == 0 {
      PositiveBits(top, bits - 32 * (|num| - 1));
    } else {
      SpillBits(top, bits - 32 * (|num| - 1), 32 - s);
    }
  }

  lemma PositiveBits(v: int, e: nat)
    requires HasBits(v, e)
    ensures v > 0
  {}

  lemma FunnelTop(x: u32, s: nat)
    requires s < 32
    ensures Funnel(0, x, 32 - s, 32) == Shr(x, s)
    ensures s == 0 ==> Shr(x, s) == x
  {
    Pow32();
    Pow1();
    hide Pow, Funnel;
    FunnelValue(0, x, 32 - s, 32);
    DivModUnique(0, Pow(2, s), 0, 0);
  }

  method ShiftNegative(num: seq<u32>, bits: nat, n: nat, out: array<u32>)
    requires 1 <= |num| <= 11 && DigitsFor(bits) == |num| && n < bits && |num| <= out.Length
    requires HasBits(V32(num), bits)
    modifies out
    ensures var z := FloorShift(-V32(num), n); var r := DigitsFor(bits - n);
            V32(out[..r]) == if -z < Room(r) then -z else 0
  {
    hide Val, Pow, Shr, Shl, HasBits, FloorShift, Extended, Complement, Room, ShiftedRight;
    var tmp := new u32[11];
    Neg(num, tmp);
    ghost var t := tmp[..|num|];
    ghost var o := Bsru(tmp[..|num|], n, 0xFFFF_FFFF, out);
    NegatedShift(num, bits, n, t, o);
    NegativeTop(t, n, o);
    var r := DigitsFor(bits - n);
    assert out[..r] == o[..r];
    NegativeTail(Extended(o, -1), o, r);
    var _ := NegInPlace(out, r);
  }

  /** Two's complement digits shifted right are the floor of the negative quotient. */
  lemma NegatedShift(num: seq<u32>, bits: nat, n: nat, t: seq<u32>, o: seq<u32>)
    requires |t| == |num| && V32(t) == Complement(V32(num), |num|) && HasBits(V32(num), bits)
    requires n < bits && n / 32 < |t| && ShiftedRight(o, t[n / 32..], 0xFFFF_FFFF, n % 32, 32)
    ensures Extended(o, -1) == FloorShift(-V32(num), n)
    ensures -Room(DigitsFor(bits - n)) <= FloorShift(-V32(num), n) < 0
  {
    hide Val, Pow, ShiftedRight, DigitsFor;
    PositiveBits(V32(num), bits);
    RightQuotient(t, n, o, -1);
    hide HasBits;
    ShiftedRange(V32(num), bits, n);
  }

  /** Ones shifted in from above are never lost. */
  lemma NegativeTop(t: seq<u32>, n: nat, o: seq<u32>)
    requires n / 32 < |t| && ShiftedRight(o, t[n / 32..], 0xFFFF_FFFF, n % 32, 32)
    ensures n % 32 != 0 ==> o[|o| - 1] != 0
  {
    hide Pow, Funnel, Shr, Shl;
    var s, top := n % 32, t[|t| - 1];
    if s != 0 {
      assert o[|o| - 1] == Funnel(0xFFFF_FFFF, top, 32 - s, 32);
      OnesFunnelled(top, s);
    }
  }

  lemma OnesFunnelled(top: u32, s: nat)
    requires 0 < s < 32
    ensures Funnel(0xFFFF_FFFF, top, 32 - s, 32) != 0
  {
    hide Pow, Funnel, Shr;
    Pow32();
    Pow1();
    PowMono(2, 1, s);
    PowMono(2, 1, 32 - s);
    TopWord(s, -1, 0xFFFF_FFFF);
    FunnelValue(0xFFFF_FFFF, top, 32 - s, 32);
    var p: int, q: int := Pow(2, s), Pow(2, 32 - s);
    MulMono(p - 1, 1, q);
    ShlSplit(top, 32 - s, 32);
  }

  /** -(2^64 - 1) bsr 32 is -2^32: one digit is kept, so the code answers zero. */
  lemma BsrOverflows()
    ensures var num: seq<u32> := [0xFFFF_FFFF, 0xFFFF_FFFF];
            && Signed(Negative, num) == -0xFFFF_FFFF_FFFF_FFFF
            && FloorShift(Signed(Negative, num), 32) == -0x1_0000_0000
            && forall r: seq<u32> :: BsrAnswers(num, Negative, 32, r) ==> |r| == 1 && V32(r) == 0
  {
    hide Val, Pow;
    TwoFullDigits();
    SixtyFourBits();
    BitLengthIs(0xFFFF_FFFF_FFFF_FFFF, 64);
    RoomOne();
    Pow32();
    DivModUnique(-0xFFFF_FFFF_FFFF_FFFF, 0x1_0000_0000, -0x1_0000_0000, 1);
  }

  lemma TwoFullDigits()
    ensures V32([0xFFFF_FFFF, 0xFFFF_FFFF]) == 0xFFFF_FFFF_FFFF_FFFF
  {
    assert [0xFFFF_FFFF, 0xFFFF_FFFF][1..] == [0xFFFF_FFFF];
    Single(0xFFFF_FFFF);
    assert V32([0xFFFF_FFFF, 0xFFFF_FFFF]) == 0xFFFF_FFFF + 0x1_0000_0000 * V32([0xFFFF_FFFF]);
  }

  lemma SixtyFourBits()
    ensures HasBits(0xFFFF_FFFF_FFFF_FFFF, 64)
  {
    Pow32();
    PowAdd(2, 32, 32);
    assert Pow(2, 64) == 2 * Pow(2, 63);
  }
}
