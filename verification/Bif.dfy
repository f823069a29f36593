/** Integer arithmetic of the virtual machine: small integers, boxed machine words, boxed
    64-bit integers and multi-precision integers, and the operations across them. */
module Bif {
  import opened Prelude
  import opened Digits
  import opened Bits
  import opened Division
  import opened Intn
  import opened IntnBits
  import opened Etf

  /** An integer as it is stored. Wide exists on 32-bit machines only. */
  datatype Num = Small(v: int) | Word(v: int) | Wide(v: int) | Big(sign: Sign, digits: seq<u32>)

  datatype Answer = Num(n: Num) | Badarith | Overflow | Trap

  function Value(n: Num): int {
    if n.Big? then Signed(n.sign, n.digits) else n.v
  }

  predicate IsWord(arch: Arch, v: int) { if arch == Bits64 then IsInt64(v) else IsInt32(v) }

  /** Digits of a stored magnitude: room for n, rounded, and never the size of a boxed
      64-bit integer. */
  function StoredLen(arch: Arch, n: nat): nat {
    if arch == Bits64 then (BigWords(arch, n) - 1) * 2 else BigWords(arch, n) - 1
  }

  /** The one way a value is stored. */
  ghost predicate Canonical(arch: Arch, n: Num) {
    match n
    case Small(v) => IsSmall(arch, v)
    case Word(v) => !IsSmall(arch, v) && IsWord(arch, v)
    case Wide(v) => arch == Bits32 && !IsInt32(v) && IsInt64(v)
    case Big(sign, d) =>
      !IsInt64(Signed(sign, d)) && Significant(d) <= 8 && |d| == StoredLen(arch, Significant(d))
  }

  lemma SmallIsWord(arch: Arch, v: int)
    ensures IsSmall(arch, v) ==> IsWord(arch, v)
    ensures IsWord(arch, v) ==> IsInt64(v)
  {}

  /** A value has one canonical form. */
  lemma CanonicalUnique(arch: Arch, x: Num, y: Num)
    requires Canonical(arch, x) && Canonical(arch, y) && Value(x) == Value(y)
    ensures x == y
  {
    hide Significant, Val, StoredLen;
    SmallIsWord(arch, Value(x));
    if x.Big? && y.Big? {
      V32Bound(x.digits);
      V32Bound(y.digits);
      SameSignificant(x.digits, y.digits);
      ValInjective(x.digits, y.digits, 0x1_0000_0000);
    }
  }

  lemma SameSignificant(a: seq<u32>, b: seq<u32>)
    requires V32(a) == V32(b)
    ensures Significant(a) == Significant(b)
  {
    hide Significant, Val;
    if Significant(a) < Significant(b) { LengthDecides(a, b); }
    if Significant(b) < Significant(a) { LengthDecides(b, a); }
  }

  // ---- making results ----

  /** make_maybe_boxed_int and make_maybe_boxed_int64 */
  function MakeInt(arch: Arch, v: int): (n: Num)
    requires IsInt64(v)
    ensures Canonical(arch, n) && Value(n) == v
  {
    if IsSmall(arch, v) then Small(v) else if IsWord(arch, v) then Word(v) else Wide(v)
  }

  /** make_bigint */
  function MakeBig(arch: Arch, digits: seq<u32>, sign: Sign): Answer {
    var count := Significant(digits);
    if count > 8 then Overflow
    else if FitsInt64(digits[..count], sign) then Num(MakeInt(arch, Signed(sign, digits[..count])))
    else Num(Big(sign, Pad(digits[..count], StoredLen(arch, count))))
  }

  /** intn_fits_int64 on digits without leading zeros. */
  predicate FitsInt64(digits: seq<u32>, sign: Sign)
    ensures FitsInt64(digits, sign) ==> IsInt64(Signed(sign, digits))
  {
    FitsFacts(digits, sign);
    if |digits| < 2 then true
    else if |digits| > 2 then false
    else if sign == Negative then V32(digits) <= 0x8000_0000_0000_0000 else V32(digits) < 0x8000_0000_0000_0000
  }

  lemma FitsFacts(digits: seq<u32>, sign: Sign)
    ensures |digits| < 2 ==> IsInt64(Signed(sign, digits))
    ensures V32(digits) >= 0
  {
    V32Bound(digits);
    if |digits| < 2 { assert Pow(0x1_0000_0000, 1) == 0x1_0000_0000 && Pow(0x1_0000_0000, 0) == 1; }
  }

  lemma FitsExactly(digits: seq<u32>, sign: Sign)
    requires |digits| > 0 ==> digits[|digits| - 1] != 0
    ensures FitsInt64(digits, sign) <==> IsInt64(Signed(sign, digits))
  {
    FitsFacts(digits, sign);
    if |digits| > 2 {
      hide Val;
      LongerIsLarger(digits, |digits| - 1, 0x1_0000_0000);
      PowMono(0x1_0000_0000, 2, |digits| - 1);
      assert Pow(0x1_0000_0000, 2) == 0x1_0000_0000_0000_0000;
      hide Pow;
    }
  }

  lemma PaddedSignificant(digits: seq<u32>, count: nat, len: nat)
    requires count == Significant(digits) && count <= len
    ensures Significant(Pad(digits[..count], len)) == count
    ensures V32(Pad(digits[..count], len)) == V32(digits)
  {
    hide Val;
    SignificantValue(digits, 0x1_0000_0000);
    PadValue(digits[..count], len, 0x1_0000_0000);
    SignificantUnique(Pad(digits[..count], len), count);
  }

  lemma CountDecides(digits: seq<u32>)
    ensures V32(digits) >= Room(8) <==> Significant(digits) > 8
    ensures V32(digits) == V32(digits[..Significant(digits)])
  {
    hide Val, Significant, Pow;
    var c := Significant(digits);
    SignificantValue(digits, 0x1_0000_0000);
    if c > 8 {
      LongerIsLarger(digits, c - 1, 0x1_0000_0000);
      PowMono(0x1_0000_0000, 8, c - 1);
    } else {
      V32Bound(digits[..c]);
      PowMono(0x1_0000_0000, c, 8);
    }
  }

  /** A result is the value in its canonical form, or an overflow beyond 256 bits. */
  lemma MakeBigExact(arch: Arch, digits: seq<u32>, sign: Sign)
    ensures var r := MakeBig(arch, digits, sign);
            if V32(digits) >= Room(8) then r == Overflow
            else r.Num? && Canonical(arch, r.n) && Value(r.n) == Signed(sign, digits)
  {
    hide Val, Significant, Room, StoredLen, FitsInt64;
    CountDecides(digits);
    var c := Significant(digits);
    if c <= 8 {
      FitsExactly(digits[..c], sign);
      if !FitsInt64(digits[..c], sign) {
        StoredFits(arch, c);
        PaddedSignificant(digits, c, StoredLen(arch, c));
      }
    }
  }

  lemma StoredFits(arch: Arch, n: nat)
    ensures n <= StoredLen(arch, n)
  {}

  // ---- operands ----

  /** intn_from_int64: two digits. */
  function FromInt64(v: int): (d: seq<u32>)
    requires IsInt64(v)
    ensures |d| == 2 && V32(d) == Abs(v)
  {
    var m: int := Abs(v);
    TwoDigits(m % 0x1_0000_0000, m / 0x1_0000_0000);
    [m % 0x1_0000_0000, m / 0x1_0000_0000]
  }

  lemma TwoDigits(lo: u32, hi: u32)
    ensures V32([lo, hi]) == lo as int + 0x1_0000_0000 * hi
  {
    assert [lo, hi][1..] == [hi] && [hi][1..] == [];
    assert Val([hi], 0x1_0000_0000) == hi as int + 0x1_0000_0000 * Val([], 0x1_0000_0000);
  }

  function SignOf(v: int): Sign { if v < 0 then Negative else Positive }

  /** conv_term_to_bigint */
  function ToDigits(arch: Arch, n: Num): (d: seq<u32>)
    requires n.Big? || IsInt64(n.v)
  {
    if n.Big? then n.digits else FromInt64(n.v)
  }

  function ToSign(n: Num): Sign { if n.Big? then n.sign else SignOf(n.v) }

  lemma Operand(arch: Arch, n: Num)
    requires Canonical(arch, n)
    ensures n.Big? || IsInt64(n.v)
    ensures Value(n) == Signed(ToSign(n), ToDigits(arch, n)) && Abs(Value(n)) == V32(ToDigits(arch, n))
    ensures |ToDigits(arch, n)| <= 8 && (Value(n) < 0 <==> ToSign(n) == Negative)
  {
    hide Val, Significant;
    SmallIsWord(arch, Value(n));
    if n.Big? { V32Bound(n.digits); }
  }

  /** term_boxed_size, none for a small integer. */
  function BoxedSize(arch: Arch, n: Num): nat {
    match n
    case Small(_) => 0
    case Word(_) => 1
    case Wide(_) => 2
    case Big(_, d) => if arch == Bits64 then |d| / 2 else |d|
  }

  lemma BigSizes(arch: Arch, n: Num)
    requires Canonical(arch, n) && n.Big?
    ensures Significant(n.digits) >= 2 && |n.digits| == StoredLen(arch, Significant(n.digits))
    ensures arch == Bits64 ==> BoxedSize(arch, n) >= 2 && |n.digits| in {4, 6, 8}
    ensures arch == Bits32 ==> BoxedSize(arch, n) >= 3 && |n.digits| in {3, 4, 6, 8}
    ensures |n.digits| == 3 <==> arch == Bits32 && Significant(n.digits) == 2
  {
    var c := Significant(n.digits);
    if c < 2 {
      SignificantValue(n.digits, 0x1_0000_0000);
      FitsFacts(n.digits[..c], n.sign);
    }
    hide Significant, Val;
  }

  /** C division: towards zero. */
  function TruncDiv(a: int, b: int): int
    requires b != 0
  {
    var q := Abs(a) / Abs(b);
    if (a < 0) == (b < 0) then q else -q
  }

  function TruncRem(a: int, b: int): int
    requires b != 0
  {
    var r := Abs(a) % Abs(b);
    if a < 0 then -r else r
  }

  /** Quotient and remainder belong together, and the remainder has the sign of a. */
  lemma TruncLaw(a: int, b: int)
    requires b != 0
    ensures a == TruncDiv(a, b) * b + TruncRem(a, b)
    ensures Abs(TruncRem(a, b)) < Abs(b) && (TruncRem(a, b) != 0 ==> (TruncRem(a, b) < 0 <==> a < 0))
  {
    var x: int, y: int := Abs(a), Abs(b);
    DivMod(x, y);
    MulComm(y, x / y);
    var q := x / y;
    assert (-q) * b == -(q * b) && q * (-y) == -(q * y);
  }

  // ---- multiplication ----

  /** intn_muldiv_sign */
  function ProductSign(x: Sign, y: Sign): Sign { if x == y then Positive else Negative }

  lemma SignedProduct(x: Sign, a: seq<u32>, y: Sign, b: seq<u32>, w: seq<u32>)
    requires V32(w) == V32(a) * V32(b)
    ensures Signed(ProductSign(x, y), w) == Signed(x, a) * Signed(y, b)
  {
    hide Val;
    var m, n := V32(a), V32(b);
    assert (-m) * n == -(m * n) && m * (-n) == -(m * n) && (-m) * (-n) == m * n;
  }

  /** intn_mulu on copies, and make_bigint. */
  method MulDigits(arch: Arch, a: seq<u32>, x: Sign, b: seq<u32>, y: Sign) returns (r: Answer)
    ensures if V32(a) * V32(b) >= Room(8) then r == Overflow
            else r.Num? && Canonical(arch, r.n) && Value(r.n) == Signed(x, a) * Signed(y, b)
  {
    hide Val, Room, Canonical, MakeBig;
    var w := new u32[|a| + |b|](_ => 0);
    MulU(a, b, w);
    var digits := w[..|a| + |b|];
    SignedProduct(x, a, y, b, digits);
    MakeBigExact(arch, digits, ProductSign(x, y));
    r := MakeBig(arch, digits, ProductSign(x, y));
  }

  /** Both operands are multi-precision and together longer than the result buffer. */
  predicate TooLong(a: Num, b: Num) { a.Big? && b.Big? && |a.digits| + |b.digits| > 11 }

  lemma AbsProduct(a: int, b: int)
    ensures Abs(a * b) == Abs(a) * Abs(b)
  {}

  /** mul_maybe_bigint */
  method MulMaybeBig(arch: Arch, a: Num, b: Num) returns (r: Answer)
    requires Canonical(arch, a) && Canonical(arch, b)
    ensures if TooLong(a, b) || Abs(Value(a) * Value(b)) >= Room(8) then r == Overflow
            else r.Num? && Canonical(arch, r.n) && Value(r.n) == Value(a) * Value(b)
  {
    hide Val, Room, Significant, StoredLen;
    Operand(arch, a);
    Operand(arch, b);
    AbsProduct(Value(a), Value(b));
    var d, e := ToDigits(arch, a), ToDigits(arch, b);
    if |d| + |e| > 11 { return Overflow; }
    r := MulDigits(arch, d, ToSign(a), e, ToSign(b));
  }

  lemma SmallProduct(arch: Arch, a: int, b: int)
    requires IsWord(arch, a) && IsWord(arch, b)
    ensures arch == Bits32 ==> IsInt64(a * b)
    ensures Abs(a * b) < Room(8)
  {
    var x: int, y: int := Abs(a), Abs(b);
    AbsProduct(a, b);
    var h := if arch == Bits64 then 0x8000_0000_0000_0000 else 0x8000_0000;
    MulMono(x, y, h);
    MulMono(h, x, h);
    RoomLarge();
  }

  lemma RoomLarge()
    ensures Room(8) > 0x8000_0000_0000_0000 * 0x8000_0000_0000_0000
  {
    PowAdd(0x1_0000_0000, 4, 4);
    PowAdd(0x1_0000_0000, 2, 2);
    assert Pow(0x1_0000_0000, 2) == 0x1_0000_0000_0000_0000;
  }

  /** mul_int64_to_bigint */
  method MulInt64(arch: Arch, v1: int, v2: int) returns (r: Answer)
    requires IsInt64(v1) && IsInt64(v2)
    ensures r.Num? && Canonical(arch, r.n) && Value(r.n) == v1 * v2
  {
    hide Val, Room, Canonical;
    AbsProduct(v1, v2);
    SmallProduct(Bits64, v1, v2);
    r := MulDigits(arch, FromInt64(v1), SignOf(v1), FromInt64(v2), SignOf(v2));
  }

  /** bif_erlang_mul_2 on integers: the exact product in canonical form. It reports an
      overflow when the product has more than 256 bits, or when the digits of two
      multi-precision operands do not fit the result buffer. */
  method Mul(arch: Arch, a: Num, b: Num) returns (r: Answer)
    requires Canonical(arch, a) && Canonical(arch, b)
    ensures if TooLong(a, b) || Abs(Value(a) * Value(b)) >= Room(8) then r == Overflow
            else r.Num? && Canonical(arch, r.n) && Value(r.n) == Value(a) * Value(b)
  {
    hide Val, Room, Significant, StoredLen;
    SmallIsWord(arch, Value(a));
    SmallIsWord(arch, Value(b));
    if a.Big? { BigSizes(arch, a); }
    if b.Big? { BigSizes(arch, b); }
    var size := Max(BoxedSize(arch, a), BoxedSize(arch, b));
    if a.Small? && b.Small? {
      SmallProduct(arch, a.v, b.v);
      var product := a.v * b.v;
      if IsSmall(arch, product) { return Num(Small(product)); }
      if IsWord(arch, product) { return Num(Word(product)); }
      if arch == Bits32 { return Num(Wide(product)); }
      r := MulInt64(arch, a.v, b.v);
    } else if size == 1 {
      SmallProduct(arch, a.v, b.v);
      var product := a.v * b.v;
      if !IsWord(arch, product) {
        if arch == Bits32 { return Num(Wide(product)); }
        r := MulInt64(arch, a.v, b.v);
        return;
      }
      r := Num(MakeInt(arch, product));
    } else if size == 2 && arch == Bits32 {
      SmallProduct(Bits64, a.v, b.v);
      var product := a.v * b.v;
      if !IsInt64(product) {
        r := MulInt64(arch, a.v, b.v);
        return;
      }
      r := Num(MakeInt(arch, product));
    } else {
      r := MulMaybeBig(arch, a, b);
    }
  }

  /** A stored magnitude is at least the power below its significant digits. */
  lemma AtLeast(n: Num)
    requires n.Big? && Significant(n.digits) >= 1
    ensures V32(n.digits) >= Pow(0x1_0000_0000, Significant(n.digits) - 1)
  {
    hide Val, Pow;
    LongerIsLarger(n.digits, Significant(n.digits) - 1, 0x1_0000_0000);
  }

  lemma ProductLarge(a: seq<u32>, b: seq<u32>, m: nat, n: nat)
    requires V32(a) >= Pow(0x1_0000_0000, m) && V32(b) >= Pow(0x1_0000_0000, n) && m + n >= 8
    ensures V32(a) * V32(b) >= Room(8)
  {
    hide Val, Pow;
    var p: int, q: int := Pow(0x1_0000_0000, m), Pow(0x1_0000_0000, n);
    PowAdd(0x1_0000_0000, m, n);
    PowMono(0x1_0000_0000, 8, m + n);
    V32Bound(b);
    MulMono(p, q, V32(b));
    MulMono(V32(b), p, V32(a));
  }

  /** Where the buffer is too short the product is too large as well, except on a 64-bit
      machine for an operand of more than 192 bits times one between 2^63 and 2^64. */
  lemma TooLongExact(arch: Arch, a: Num, b: Num)
    requires Canonical(arch, a) && Canonical(arch, b) && TooLong(a, b)
    ensures Abs(Value(a) * Value(b)) >= Room(8) ||
            (arch == Bits64 &&
              ((|a.digits| == 8 && Significant(b.digits) == 2) || (|b.digits| == 8 && Significant(a.digits) == 2)))
  {
    hide Val, Pow, Room, Significant, StoredLen;
    BigSizes(arch, a);
    BigSizes(arch, b);
    var c, d := Significant(a.digits), Significant(b.digits);
    StoredBack(arch, c);
    StoredBack(arch, d);
    if c + d >= 10 {
      AtLeast(a);
      AtLeast(b);
      ProductLarge(a.digits, b.digits, c - 1, d - 1);
      Operand(arch, a);
      Operand(arch, b);
      AbsProduct(Value(a), Value(b));
    }
  }

  lemma StoredBack(arch: Arch, c: nat)
    requires 2 <= c <= 8
    ensures StoredLen(arch, c) ==
            if c == 2 then (if arch == Bits64 then 4 else 3) else if c <= 4 then 4 else if c <= 6 then 6 else 8
  {}

  const TWO_TO_192: seq<u32> := [0, 0, 0, 0, 0, 0, 1, 0]
  const TWO_TO_63: seq<u32> := [0, 0x8000_0000, 0, 0]

  lemma LargeOperand()
    ensures Significant(TWO_TO_192) == 7 && V32(TWO_TO_192) == Pow(0x1_0000_0000, 6)
  {
    hide Val, Pow, Significant;
    var x: seq<u32>, low: seq<u32> := TWO_TO_192, [0, 0, 0, 0, 0, 0];
    SignificantUnique(x, 7);
    SignificantValue(x, 0x1_0000_0000);
    assert x[..7] == low + [1];
    ValSnoc(low, 1, 0x1_0000_0000);
    ValZeros(low, 0x1_0000_0000);
  }

  lemma SmallOperand()
    ensures Significant(TWO_TO_63) == 2 && V32(TWO_TO_63) == 0x8000_0000_0000_0000
  {
    var y := TWO_TO_63;
    SignificantUnique(y, 2);
    SignificantValue(y, 0x1_0000_0000);
    assert y[..2] == [0, 0x8000_0000];
    TwoDigits(0, 0x8000_0000);
    hide Val, Significant;
  }

  lemma ProductFits()
    ensures Pow(0x1_0000_0000, 6) * 0x8000_0000_0000_0000 < Room(8)
    ensures Pow(0x1_0000_0000, 6) >= 0x1_0000_0000_0000_0000
  {
    PowAdd(0x1_0000_0000, 6, 2);
    assert Pow(0x1_0000_0000, 2) == 0x1_0000_0000_0000_0000;
    PowMono(0x1_0000_0000, 2, 6);
  }

  /** 2^192 times 2^63 is below 2^256, and on a 64-bit machine an overflow. */
  lemma FalseOverflow()
    ensures var a, b := Big(Positive, TWO_TO_192), Big(Positive, TWO_TO_63);
            Canonical(Bits64, a) && Canonical(Bits64, b) && TooLong(a, b) && Abs(Value(a) * Value(b)) < Room(8)
  {
    hide Val, Pow, Significant, Room;
    LargeOperand();
    SmallOperand();
    ProductFits();
    var a, b := Big(Positive, TWO_TO_192), Big(Positive, TWO_TO_63);
    AbsProduct(Value(a), Value(b));
  }

  // ---- division ----

  /** intn_divu through 16-bit views, as digits again. */
  method DivDigits(m: seq<u32>, n: seq<u32>) returns (q: seq<u32>, r: seq<u32>)
    requires |m| <= 8 && |n| <= 8 && V32(n) > 0 && V32(m) > V32(n)
    ensures V32(q) == V32(m) / V32(n) && V32(r) == V32(m) % V32(n)
  {
    hide Val, Pairs, Halves, Significant;
    ghost var sm, sn := Significant(Halves(m)), Significant(Halves(n));
    var q16, r16 := new u16[18](_ => 0), new u16[18](_ => 0);
    MoreHalves(m, n);
    var res := DivU(m, n, q16, r16);
    q := Pairs(q16[..2 * res.qLen]);
    r := Pairs(r16[..2 * res.rLen]);
    assert q16[..][..2 * res.qLen] == q16[..2 * res.qLen] && r16[..][..2 * res.rLen] == r16[..2 * res.rLen];
  }

  lemma MoreHalves(m: seq<u32>, n: seq<u32>)
    requires V32(m) > V32(n)
    ensures Significant(Halves(m)) >= Significant(Halves(n))
    ensures Significant(Halves(m)) <= 2 * |m| && Significant(Halves(n)) <= 2 * |n|
  {
    hide Val;
    HalvesValue(m);
    HalvesValue(n);
    var a, b := Halves(m), Halves(n);
    if Significant(a) < Significant(b) { ShorterIsSmaller(a, b); }
  }

  lemma ShorterIsSmaller(a: seq<u16>, b: seq<u16>)
    requires Significant(a) < Significant(b)
    ensures V16(a) < V16(b)
  {
    hide Val, Pow;
    var la, lb := Significant(a), Significant(b);
    SignificantValue(a, 65536);
    ValBound(a[..la], 65536);
    LongerIsLarger(b, lb - 1, 65536);
    PowMono(65536, la, lb - 1);
  }

  lemma QuotientFits(m: int, n: int)
    requires 0 < n <= m < Room(8)
    ensures 0 <= m / n < Room(8) && 0 <= m % n < Room(8)
  {
    hide Room;
    DivMod(m, n);
    QuotientBound(m, n, 0);
    MulMono(m / n, 1, n);
    MulComm(m / n, n);
  }

  lemma CanonicalBound(arch: Arch, n: Num)
    requires Canonical(arch, n)
    ensures Abs(Value(n)) < Room(8)
  {
    hide Val;
    SmallIsWord(arch, Value(n));
    RoomLarge();
    if n.Big? {
      CountDecides(n.digits);
      V32Bound(n.digits);
    }
  }

  /** div_maybe_bigint */
  method DivMaybeBig(arch: Arch, a: Num, b: Num) returns (r: Answer)
    requires Canonical(arch, a) && Canonical(arch, b)
    ensures if Value(b) == 0 then r == Badarith
            else r.Num? && Canonical(arch, r.n) && Value(r.n) == TruncDiv(Value(a), Value(b))
  {
    hide Val, Room, Significant, StoredLen, Canonical, MakeBig;
    ZeroIsSmall(arch, b);
    if b == Small(0) { return Badarith; }
    Operand(arch, a);
    Operand(arch, b);
    CanonicalBound(arch, a);
    var d, e := ToDigits(arch, a), ToDigits(arch, b);
    var cmp := CmpU(d, e);
    if cmp < 0 {
      SmallQuotient(arch, Value(a), Value(b));
      return Num(Small(0));
    }
    if cmp == 0 {
      EqualQuotient(arch, Value(a), Value(b));
      return if ToSign(a) == ToSign(b) then Num(Small(1)) else Num(Small(-1));
    }
    var q, rem := DivDigits(d, e);
    QuotientFits(V32(d), V32(e));
    MakeBigExact(arch, q, ProductSign(ToSign(a), ToSign(b)));
    r := MakeBig(arch, q, ProductSign(ToSign(a), ToSign(b)));
  }

  lemma ZeroIsSmall(arch: Arch, b: Num)
    requires Canonical(arch, b)
    ensures Value(b) == 0 <==> b == Small(0)
  {
    SmallIsWord(arch, Value(b));
  }

  lemma SmallQuotient(arch: Arch, a: int, b: int)
    requires b != 0 && Abs(a) < Abs(b)
    ensures TruncDiv(a, b) == 0 && TruncRem(a, b) == a && Canonical(arch, Small(0))
  {
    DivModUnique(Abs(a), Abs(b), 0, Abs(a));
  }

  lemma EqualQuotient(arch: Arch, a: int, b: int)
    requires b != 0 && Abs(a) == Abs(b)
    ensures TruncDiv(a, b) == (if (a < 0) == (b < 0) then 1 else -1) && TruncRem(a, b) == 0
    ensures Canonical(arch, Small(1)) && Canonical(arch, Small(-1)) && Canonical(arch, Small(0))
  {
    DivModUnique(Abs(a), Abs(b), 1, 0);
  }

  lemma QuotientSize(a: int, b: int)
    requires b != 0
    ensures Abs(TruncDiv(a, b)) <= Abs(a)
    ensures Abs(TruncDiv(a, b)) == Abs(a) ==> a == 0 || b == 1 || b == -1
    ensures Abs(TruncRem(a, b)) <= Abs(a)
  {
    var x: int, y: int := Abs(a), Abs(b);
    DivMod(x, y);
    var q := x / y;
    QuotientBound(x, y, 0);
    MulComm(y, q);
    MulMono(q, 1, y);
    if y >= 2 { MulMono(q, 2, y); }
  }

  /** bif_erlang_div_2 on integers: the quotient towards zero, in canonical form. */
  method Div(arch: Arch, a: Num, b: Num) returns (r: Answer)
    requires Canonical(arch, a) && Canonical(arch, b)
    ensures if Value(b) == 0 then r == Badarith
            else r.Num? && Canonical(arch, r.n) && Value(r.n) == TruncDiv(Value(a), Value(b))
  {
    hide Val, Room, Significant, StoredLen, TruncDiv, TruncRem, MakeBig;
    SmallIsWord(arch, Value(a));
    SmallIsWord(arch, Value(b));
    if a.Big? { BigSizes(arch, a); }
    if b.Big? { BigSizes(arch, b); }
    if Value(b) != 0 { QuotientSize(Value(a), Value(b)); }
    var size := Max(BoxedSize(arch, a), BoxedSize(arch, b));
    if a.Small? && b.Small? {
      if b.v == 0 { return Badarith; }
      var q := TruncDiv(a.v, b.v);
      r := if q == Half(arch) then Num(Word(q)) else Num(Small(q));
    } else if size == 1 {
      if b.v == 0 { return Badarith; }
      if b.v == -1 && a.v == -16 * Half(arch) {
        MinByMinusOne(a.v);
        r := MinusMin(arch);
        return;
      }
      WordQuotient(arch, a.v, b.v);
      r := Num(MakeInt(arch, TruncDiv(a.v, b.v)));
    } else if size == 2 && arch == Bits32 {
      if b.v == 0 { return Badarith; }
      if b.v == -1 && a.v == -0x8000_0000_0000_0000 {
        MinByMinusOne(a.v);
        r := MinusMin64(arch);
        return;
      }
      WordQuotient(Bits64, a.v, b.v);
      r := Num(MakeInt(arch, TruncDiv(a.v, b.v)));
    } else {
      r := DivMaybeBig(arch, a, b);
    }
  }

  lemma MinByMinusOne(v: int)
    ensures TruncDiv(v, -1) == -v
  {}

  lemma WordQuotient(arch: Arch, a: int, b: int)
    requires IsWord(arch, a) && b != 0 && !(b == -1 && a == -16 * Half(arch))
    ensures IsWord(arch, TruncDiv(a, b)) && IsInt64(TruncDiv(a, b))
  {
    hide TruncDiv;
    QuotientSize(a, b);
    if b == -1 { MinByMinusOne(a); }
    SignOfQuotient(a, b);
    SmallIsWord(arch, TruncDiv(a, b));
  }

  lemma SignOfQuotient(a: int, b: int)
    requires b != 0
    ensures TruncDiv(a, b) > 0 ==> (a < 0) == (b < 0)
    ensures b == 1 ==> TruncDiv(a, b) == a
  {
    QuotientBound(Abs(a), Abs(b), 0);
  }

  /** One more than the largest machine word. */
  method MinusMin(arch: Arch) returns (r: Answer)
    ensures r.Num? && Canonical(arch, r.n) && Value(r.n) == 16 * Half(arch)
  {
    if arch == Bits32 { return Num(Wide(0x8000_0000)); }
    r := MinusMin64(arch);
  }

  /** int64_max_plus_one */
  method MinusMin64(arch: Arch) returns (r: Answer)
    ensures r.Num? && Canonical(arch, r.n) && Value(r.n) == 0x8000_0000_0000_0000
  {
    hide Room, Canonical, MakeBig;
    TwoDigits(0, 0x8000_0000);
    RoomLarge();
    MakeBigExact(arch, [0, 0x8000_0000], Positive);
    r := MakeBig(arch, [0, 0x8000_0000], Positive);
  }

  // ---- remainder ----

  /** What term_maybe_unbox_int64 reads: the first two digits as a signed 64-bit word. */
  function Unboxed(n: Num): int
    requires n.Big? ==> |n.digits| >= 2
  {
    if !n.Big? then n.v
    else
      var lo: int, hi: int := n.digits[0], n.digits[1];
      var m := lo + 0x1_0000_0000 * hi;
      if m >= 0x8000_0000_0000_0000 then m - 0x1_0000_0000_0000_0000 else m
  }

  /** rem_maybe_bigint */
  method RemMaybeBig(arch: Arch, a: Num, b: Num) returns (r: Answer)
    requires Canonical(arch, a) && Canonical(arch, b)
    ensures if Value(b) == 0 then r == Badarith
            else r.Num? && Canonical(arch, r.n) && Value(r.n) == TruncRem(Value(a), Value(b))
  {
    hide Val, Room, Significant, StoredLen, Canonical, MakeBig;
    ZeroIsSmall(arch, b);
    if b == Small(0) { return Badarith; }
    Operand(arch, a);
    Operand(arch, b);
    CanonicalBound(arch, a);
    var d, e := ToDigits(arch, a), ToDigits(arch, b);
    var cmp := CmpU(d, e);
    if cmp < 0 {
      SmallQuotient(arch, Value(a), Value(b));
      return Num(a);
    }
    if cmp == 0 {
      EqualQuotient(arch, Value(a), Value(b));
      return Num(Small(0));
    }
    var q, rem := DivDigits(d, e);
    QuotientFits(V32(d), V32(e));
    MakeBigExact(arch, rem, ToSign(a));
    r := MakeBig(arch, rem, ToSign(a));
  }

  /** Sizes combined bit by bit. */
  function SizeOr(x: nat, y: nat): int { BitOp(Or, x, y) }

  lemma SizeOrFacts(x: nat, y: nat)
    ensures SizeOr(x, y) == 1 <==> x <= 1 && y <= 1 && x + y > 0
    ensures 2 <= SizeOr(x, y) <= 3 <==> x <= 3 && y <= 3 && (x >= 2 || y >= 2)
  {
    OrAtLeast(x, y);
    assert Pow(2, 1) == 2 && Pow(2, 2) == 4;
    if x < 2 && y < 2 { BitOpRange(Or, x, y, 1); }
    if x < 4 && y < 4 { BitOpRange(Or, x, y, 2); }
    hide Pow;
    if x == 0 && y == 0 { assert BitOp(Or, 0, 0) == 0; }
  }

  /** A multi-precision operand of three words on a 32-bit machine is taken for a boxed
      64-bit integer when the other operand has no more words. */
  predicate Misread(arch: Arch, a: Num, b: Num) {
    arch == Bits32 && BoxedSize(arch, a) <= 3 && BoxedSize(arch, b) <= 3 &&
      (BoxedSize(arch, a) == 3 || BoxedSize(arch, b) == 3)
  }

  /** The smallest machine integer by minus one, which C leaves undefined. */
  predicate Traps(arch: Arch, x: int, y: int) {
    y == -1 && (x == -16 * Half(arch) || (arch == Bits32 && x == -0x8000_0000_0000_0000))
  }

  lemma RemainderFits(arch: Arch, x: int, y: int)
    requires y != 0
    ensures IsSmall(arch, x) ==> IsSmall(arch, TruncRem(x, y))
    ensures IsInt64(x) ==> IsInt64(TruncRem(x, y))
  {
    hide TruncDiv;
    QuotientSize(x, y);
  }

  /** bif_erlang_rem_2 on integers: the remainder with the sign of the dividend, in
      canonical form, unless an operand is misread. */
  method Rem(arch: Arch, a: Num, b: Num) returns (r: Answer)
    requires Canonical(arch, a) && Canonical(arch, b)
    ensures Value(b) == 0 ==> r == Badarith
    ensures Value(b) != 0 && !Misread(arch, a, b) && !Traps(arch, Value(a), Value(b)) ==>
              r.Num? && Canonical(arch, r.n) && Value(r.n) == TruncRem(Value(a), Value(b))
    ensures Value(b) != 0 && !Misread(arch, a, b) && Traps(arch, Value(a), Value(b)) ==> r == Trap
    ensures Value(b) != 0 && Misread(arch, a, b) ==>
              var x, y := Unboxed(a), Unboxed(b);
              y != 0 && if Traps(arch, x, y) && x == -0x8000_0000_0000_0000 then r == Trap
                        else r.Num? && Canonical(arch, r.n) && Value(r.n) == TruncRem(x, y)
  {
    hide Val, Room, Significant, StoredLen, TruncDiv, TruncRem, MakeBig, SizeOr, BitOp;
    SmallIsWord(arch, Value(a));
    SmallIsWord(arch, Value(b));
    ZeroIsSmall(arch, b);
    if a.Big? { BigSizes(arch, a); }
    if b.Big? { BigSizes(arch, b); Misreading(b); }
    if a.Small? && b.Small? {
      if b.v == 0 { return Badarith; }
      RemainderFits(arch, a.v, b.v);
      return Num(Small(TruncRem(a.v, b.v)));
    }
    var size := SizeOr(BoxedSize(arch, a), BoxedSize(arch, b));
    SizeOrFacts(BoxedSize(arch, a), BoxedSize(arch, b));
    if size == 1 {
      if b.v == 0 { return Badarith; }
      if a.v == -16 * Half(arch) && b.v == -1 { return Trap; }
      RemainderFits(arch, a.v, b.v);
      r := Num(MakeInt(arch, TruncRem(a.v, b.v)));
    } else if arch == Bits32 && 2 <= size <= 3 {
      var x, y := Unboxed(a), Unboxed(b);
      if y == 0 { return Badarith; }
      if x == -0x8000_0000_0000_0000 && y == -1 { return Trap; }
      if a.Big? { Misreading(a); }
      RemainderFits(arch, x, y);
      r := Num(MakeInt(arch, TruncRem(x, y)));
    } else {
      r := RemMaybeBig(arch, a, b);
    }
  }

  lemma Misreading(n: Num)
    requires n.Big? && |n.digits| >= 2
    ensures IsInt64(Unboxed(n)) && (Significant(n.digits) == 2 ==> Unboxed(n) != 0)
  {}

  /** On a 32-bit machine 2^63 rem 10 comes out as -8. */
  lemma RemainderOfLarge()
    ensures var a, b := Big(Positive, [0, 0x8000_0000, 0]), Small(10);
            Canonical(Bits32, a) && Canonical(Bits32, b) && Misread(Bits32, a, b)
            && TruncRem(Value(a), Value(b)) == 8 && TruncRem(Unboxed(a), Unboxed(b)) == -8
  {
    var d: seq<u32> := [0, 0x8000_0000, 0];
    SignificantUnique(d, 2);
    SignificantValue(d, 0x1_0000_0000);
    assert d[..2] == [0, 0x8000_0000];
    TwoDigits(0, 0x8000_0000);
    hide Val, Significant;
  }
}
