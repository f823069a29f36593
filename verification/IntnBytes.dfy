/** Multi-precision integers to and from bytes, in either byte order, unsigned or two's
    complement. */
module IntnBytes {
  import opened Prelude
  import opened Digits
  import opened Bits
  import opened Intn
  import opened IntnBits

  /** The bytes of m, least significant first, without leading zeros. */
  function Little(m: nat): seq<u8> {
    if m == 0 then [] else [m % 256] + Little(m / 256)
  }

  function NumBytes(m: nat): nat { if m == 0 then 0 else 1 + NumBytes(m / 256) }

  lemma {:induction false} LittleVal(m: nat)
    ensures Val(Little(m), 256) == m && |Little(m)| == NumBytes(m)
  {
    if m > 0 {
      LittleVal(m / 256);
      assert Little(m)[1..] == Little(m / 256);
    }
  }

  lemma {:induction false} NumBytesBound(m: nat, k: nat)
    ensures m < Pow(256, k) <==> NumBytes(m) <= k
  {
    if k > 0 && m > 0 {
      NumBytesBound(m / 256, k - 1);
      var p: int := Pow(256, k - 1);
      assert Pow(256, k) == 256 * p;
      QuotientBound(m, 256, p);
    }
  }

  /** Bytes whose last is not zero are the shortest of their value. */
  lemma {:induction false} LittleUnique(s: seq<u8>)
    requires |s| > 0 ==> s[|s| - 1] != 0
    ensures 0 <= Val(s, 256) && s == Little(Val(s, 256))
  {
    ValBound(s, 256);
    if |s| > 0 {
      LittleUnique(s[1..]);
      ValBound(s[1..], 256);
      var v := Val(s[1..], 256);
      DivModUnique(Val(s, 256), 256, v, s[0]);
      assert s == [s[0]] + s[1..];
    }
  }

  // ---- digits as bytes ----

  function WordOf(b: seq<u8>): u32
    requires |b| == 4
  {
    var b0: int, b1: int, b2: int, b3: int := b[0], b[1], b[2], b[3];
    b0 + 256 * b1 + 65536 * b2 + 16777216 * b3
  }

  /** Four bytes a digit. */
  function Grouped(b: seq<u8>): (s: seq<u32>)
    requires |b| % 4 == 0
    ensures |s| == |b| / 4
  {
    if |b| == 0 then [] else [WordOf(b[..4])] + Grouped(b[4..])
  }

  lemma FourDigits(b0: int, b1: int, b2: int, b3: int, rest: seq<int>)
    ensures Val([b0, b1, b2, b3] + rest, 256)
            == b0 + 256 * b1 + 65536 * b2 + 16777216 * b3 + 0x1_0000_0000 * Val(rest, 256)
  {
    var s := [b0, b1, b2, b3] + rest;
    assert s[1..] == [b1, b2, b3] + rest;
    assert s[1..][1..] == [b2, b3] + rest;
    assert s[1..][1..][1..] == [b3] + rest;
    assert s[1..][1..][1..][1..] == rest;
    assert Val(s, 256) == b0 + 256 * Val([b1, b2, b3] + rest, 256);
    assert Val([b1, b2, b3] + rest, 256) == b1 + 256 * Val([b2, b3] + rest, 256);
    assert Val([b2, b3] + rest, 256) == b2 + 256 * Val([b3] + rest, 256);
    assert Val([b3] + rest, 256) == b3 + 256 * Val(rest, 256);
  }

  lemma {:induction false} GroupedValue(b: seq<u8>)
    requires |b| % 4 == 0
    ensures V32(Grouped(b)) == Val(b, 256)
  {
    if |b| > 0 {
      GroupedValue(b[4..]);
      assert b == [b[0], b[1], b[2], b[3]] + b[4..];
      FourDigits(b[0], b[1], b[2], b[3], b[4..]);
      assert Grouped(b)[1..] == Grouped(b[4..]);
      assert V32(Grouped(b)) == Grouped(b)[0] + 0x1_0000_0000 * V32(Grouped(b[4..]));
    }
  }

  lemma {:induction false} GroupedAt(b: seq<u8>, k: nat)
    requires |b| % 4 == 0 && 4 * k < |b|
    ensures Grouped(b)[k] == WordOf(b[4 * k..4 * k + 4])
  {
    if k > 0 {
      GroupedAt(b[4..], k - 1);
      SliceShift(b, 4 * k - 4);
    }
  }

  lemma SliceShift(b: seq<u8>, i: nat)
    requires i + 8 <= |b|
    ensures b[4..][i..i + 4] == b[i + 4..i + 8]
  {}

  lemma {:induction false} AllFF(n: nat)
    ensures Val(seq(n, _ => 255), 256) == Pow(256, n) - 1
  {
    if n > 0 {
      AllFF(n - 1);
      assert seq(n, _ => 255)[1..] == seq(n - 1, _ => 255);
    }
  }

  lemma PowBytes(n: nat)
    ensures Pow(256, 4 * n) == Room(n)
  {
    assert Pow(256, 4) == 0x1_0000_0000 by { PowAdd(256, 2, 2); assert Pow(256, 2) == 65536; }
    PowMul(256, 4, n);
  }

  // ---- from bytes ----

  function Reverse(s: seq<u8>): (r: seq<u8>)
    ensures |r| == |s| && forall i :: 0 <= i < |s| ==> r[i] == s[|s| - 1 - i]
  {
    if |s| == 0 then [] else Reverse(s[1..]) + [s[0]]
  }

  /** Least significant byte first. */
  function InOrder(s: seq<u8>, little: bool): (r: seq<u8>)
    ensures |r| == |s|
  {
    if little then s else Reverse(s)
  }

  predicate TopBit(b: seq<u8>) { |b| > 0 && b[|b| - 1] >= 128 }

  /** What the bytes say, least significant first. */
  function BytesValue(b: seq<u8>, signed: bool): int {
    if signed && TopBit(b) then Val(b, 256) - Pow(256, |b|) else Val(b, 256)
  }

  /** Four bytes of digit k once bytes from j up have been shifted in. */
  ghost function Window(e: seq<u8>, filler: u8, j: nat, k: nat): (w: seq<u8>)
    requires 4 * k + 4 <= |e|
    ensures |w| == 4
    ensures forall p :: 0 <= p < 4 ==>
              var i := p + (if j <= 4 * k then 4 * k else j); w[p] == if i < 4 * k + 4 then e[i] else filler
  {
    if j <= 4 * k then e[4 * k..4 * k + 4]
    else if j >= 4 * k + 4 then [filler, filler, filler, filler]
    else if j == 4 * k + 3 then [e[j], filler, filler, filler]
    else if j == 4 * k + 2 then [e[j], e[j + 1], filler, filler]
    else [e[j], e[j + 1], e[j + 2], filler]
  }

  /** Shifting a byte into a digit from below. */
  lemma ShiftIn(w: seq<u8>, b: u8)
    requires |w| == 4
    ensures (WordOf(w) * 256) % 0x1_0000_0000 + b == WordOf([b] + w[..3])
  {
    var b0: int, b1: int, b2: int, b3: int := w[0], w[1], w[2], w[3];
    DivModUnique(WordOf(w) * 256, 0x1_0000_0000, b3, 256 * b0 + 65536 * b1 + 16777216 * b2);
  }

  lemma WindowStep(e: seq<u8>, filler: u8, j: nat, k: nat)
    requires 4 * k + 4 <= |e| && 0 < j <= |e|
    ensures k != (j - 1) / 4 ==> Window(e, filler, j - 1, k) == Window(e, filler, j, k)
    ensures k == (j - 1) / 4 ==> Window(e, filler, j - 1, k) == [e[j - 1]] + Window(e, filler, j, k)[..3]
  {}

  /** The digits hold the bytes shifted in so far. */
  ghost predicate Shifted(digits: seq<u32>, e: seq<u8>, filler: u8, j: nat) {
    |e| == 44 && |digits| == 11 &&
    forall k :: 0 <= k < 11 ==> digits[k] == WordOf(Window(e, filler, j, k))
  }

  lemma ShiftedStep(digits: seq<u32>, e: seq<u8>, filler: u8, j: nat)
    requires Shifted(digits, e, filler, j) && 0 < j <= 44
    ensures var k := (j - 1) / 4; var d: int, b: int := digits[k], e[j - 1];
            0 <= d * 256 % 0x1_0000_0000 + b < 0x1_0000_0000
            && Shifted(digits[k := d * 256 % 0x1_0000_0000 + b], e, filler, j - 1)
  {
    hide Window, WordOf;
    var k := (j - 1) / 4;
    ShiftIn(Window(e, filler, j, k), e[j - 1]);
    forall i | 0 <= i < 11 ensures i != k ==> Window(e, filler, j - 1, i) == Window(e, filler, j, i) {
      WindowStep(e, filler, j, i);
    }
    WindowStep(e, filler, j, k);
  }

  lemma AllShifted(digits: seq<u32>, e: seq<u8>, filler: u8)
    requires Shifted(digits, e, filler, 0)
    ensures digits == Grouped(e)
  {
    forall k | 0 <= k < 11 ensures digits[k] == Grouped(e)[k] { GroupedAt(e, k); }
  }

  lemma {:induction false} GroupedPrefix(b: seq<u8>, k: nat)
    requires |b| % 4 == 0 && 4 * k <= |b|
    ensures Grouped(b)[..k] == Grouped(b[..4 * k])
  {
    if k > 0 {
      GroupedPrefix(b[4..], k - 1);
      var m := 4 * k - 4;
      assert b[..m + 4][4..] == b[4..][..m] && b[..m + 4][..4] == b[..4];
    }
  }

  /** Bytes padded to a length with zeros or ones. */
  lemma PaddedValue(b: seq<u8>, filler: u8, total: nat)
    requires |b| <= total && (filler == 0 || filler == 255)
    ensures var e := b + seq(total - |b|, _ => filler);
            Val(e, 256) == if filler == 0 then Val(b, 256) else Val(b, 256) + Pow(256, total) - Pow(256, |b|)
  {
    hide Val, Pow;
    var pad: seq<int> := seq(total - |b|, _ => filler);
    ValAppend(b, pad, 256);
    if filler == 0 {
      ValZeros(pad, 256);
      assert Pow(256, |b|) * 0 == 0;
    } else {
      AllFF(total - |b|);
      assert pad == seq(total - |b|, _ => 255);
      PowAdd(256, |b|, total - |b|);
      MulDist(Pow(256, |b|), Pow(256, total - |b|), 1);
    }
  }

  lemma PaddedPrefix(b: seq<u8>, filler: u8, m: nat)
    requires |b| <= m <= 44
    ensures |Padded(b, filler)| == 44 && Padded(b, filler)[..m] == b + seq(m - |b|, _ => filler)
  {}

  /** The low digits of the padded bytes. */
  lemma LowDigits(b: seq<u8>, filler: u8, digits: seq<u32>, k: nat)
    requires |b| <= 4 * k <= 44 && (filler == 0 || filler == 255)
    requires digits == Grouped(Padded(b, filler))
    ensures |digits| == 11
    ensures V32(digits[..k]) ==
            if filler == 0 then Val(b, 256) else Val(b, 256) + Room(k) - Pow(256, |b|)
  {
    hide Val, Pow, Grouped, Padded, Room;
    var e := Padded(b, filler);
    var m := 4 * k;
    PaddedPrefix(b, filler, m);
    GroupedPrefix(e, k);
    GroupedValue(e[..m]);
    PaddedValue(b, filler, m);
    PowBytes(k);
  }

  /** The low k digits hold the value modulo their room. */
  lemma CutDigits(b: seq<u8>, filler: u8, digits: seq<u32>, k: nat)
    requires |b| <= 44 && k <= 11 && (filler == 0 || filler == 255)
    requires digits == Grouped(Padded(b, filler))
    ensures |digits| == 11 && Room(k) > 0
    ensures V32(digits[..k]) == (if filler == 0 then Val(b, 256) else Val(b, 256) - Pow(256, |b|)) % Room(k)
  {
    hide Val, Pow, Grouped, Padded, Room, V32;
    AllDigits(b, filler, digits);
    FirstDigits(digits, k);
    RoomSplit(k);
    var v: int := if filler == 0 then Val(b, 256) else Val(b, 256) - Pow(256, |b|);
    LowPart(v, V32(digits[..k]), V32(digits[k..]), Room(k), Room(11 - k), filler == 255);
  }

  lemma LowPart(v: int, low: int, high: int, room: int, above: int, negative: bool)
    requires 0 <= low < room && low + room * high == if negative then v + room * above else v
    ensures low == v % room
  {
    MulDist(room, high, above);
    DivModUnique(v, room, if negative then high - above else high, low);
  }

  lemma AllDigits(b: seq<u8>, filler: u8, digits: seq<u32>)
    requires |b| <= 44 && (filler == 0 || filler == 255)
    requires digits == Grouped(Padded(b, filler))
    ensures |digits| == 11
    ensures V32(digits) == if filler == 0 then Val(b, 256) else Val(b, 256) + Room(11) - Pow(256, |b|)
  {
    hide Val, Pow, Grouped, Padded, Room;
    LowDigits(b, filler, digits, 11);
    assert digits[..11] == digits;
  }

  lemma FirstDigits(digits: seq<u32>, k: nat)
    requires k <= |digits|
    ensures V32(digits) == V32(digits[..k]) + Room(k) * V32(digits[k..]) && 0 <= V32(digits[..k]) < Room(k)
  {
    hide Val, Pow;
    ValSplit(digits, k, 0x1_0000_0000);
    ValBound(digits[..k], 0x1_0000_0000);
  }

  lemma RoomSplit(k: nat)
    requires k <= 11
    ensures Room(11) == Room(k) * Room(11 - k) && Room(k) == Pow(0x1_0000_0000, k) > 0
  {
    PowAdd(0x1_0000_0000, k, 11 - k);
  }

  /** The top bit is worth half of the room. */
  lemma TopBitHalf(b: seq<u8>)
    requires |b| > 0
    ensures TopBit(b) <==> 2 * Val(b, 256) >= Pow(256, |b|)
  {
    hide Val, Pow;
    var n := |b| - 1;
    var p: int := Pow(256, n);
    var top: int := b[n];
    assert b == b[..n] + [b[n]];
    ValSnoc(b[..n], b[n], 256);
    ValBound(b[..n], 256);
    PowAdd(256, n, 1);
    assert Pow(256, 1) == 256 by { PowOne(256); }
    if top >= 128 { MulMono(p, 128, top); } else { MulMono(p, top, 127); }
  }

  /** Bytes with the filler above them, as many as the digits hold. */
  ghost function Padded(b: seq<u8>, filler: u8): seq<u8>
    requires |b| <= 44
  {
    b + seq(44 - |b|, _ => filler)
  }

  /** Bytes shifted into the digits, the most significant first. */
  method ShiftBytesIn(bytes: seq<u8>, little: bool, filler: u8, out: array<u32>)
    requires out.Length == 11 && |bytes| <= 44 && (filler == 0 || filler == 255)
    modifies out
    ensures out[..] == Grouped(Padded(InOrder(bytes, little), filler))
  {
    hide Val, Pow, Grouped, Window, WordOf, Shifted;
    ghost var b := InOrder(bytes, little);
    ghost var e := Padded(b, filler);
    FillDigits(out, filler);
    StartShifted(out[..], b, filler);
    var n := |bytes|;
    var j := n;
    while j > 0
      invariant 0 <= j <= n
      invariant Shifted(out[..], e, filler, j)
    {
      ghost var before := out[..];
      ShiftedStep(before, e, filler, j);
      j := j - 1;
      var byte: int := if little then bytes[j] else bytes[n - 1 - j];
      var d: int := out[j / 4];
      assert byte == e[j];
      var word: u32 := d * 256 % 0x1_0000_0000 + byte;
      out[j / 4] := word;
      assert out[..] == before[j / 4 := word];
    }
    AllShifted(out[..], e, filler);
  }

  /** Digits that intn_from_integer_bytes keeps. */
  function Kept(sign: Sign): nat { if sign == Negative then 10 else 8 }

  /** Thirty-three bytes whose value is lost: all digits kept are zero. */
  lemma FromBytesOverflows()
    ensures var b := seq(32, _ => 0) + [1]; BytesValue(b, false) % Room(Kept(Positive)) == 0 < BytesValue(b, false)
  {
    hide Val, Pow, Room;
    OneByte();
    var z: seq<u8> := seq(32, _ => 0);
    ValAppend(z, [1], 256);
    ValZeros(z, 256);
    PowBytes(8);
  }

  lemma OneByte()
    ensures Val([1], 256) == 1 && Room(8) > 0
  {}

  /** intn_from_integer_bytes: the magnitude modulo the room of the digits kept, hence
      the value itself for up to 32 bytes. */
  method FromIntegerBytes(bytes: seq<u8>, little: bool, signed: bool, out: array<u32>) returns (count: int, sign: Sign)
    requires out.Length == 11 && (signed ==> |bytes| > 0)
    modifies out
    ensures count == -1 <==> |bytes| >= 44
    ensures |bytes| < 44 ==> 0 <= count <= Kept(sign) && count == Significant(out[..count])
    ensures sign == Negative <==> signed && TopBit(InOrder(bytes, little))
    ensures |bytes| < 44 ==> V32(out[..count]) == Abs(BytesValue(InOrder(bytes, little), signed)) % Room(Kept(sign))
    ensures |bytes| <= 32 ==> Signed(sign, out[..count]) == BytesValue(InOrder(bytes, little), signed)
  {
    hide Val, Pow, Grouped, Padded, Significant;
    ghost var b := InOrder(bytes, little);
    var n := |bytes|;
    var filler: u8 := 0;
    sign := Positive;
    if signed && bytes[if little then n - 1 else 0] >= 128 {
      filler := 255;
      sign := Negative;
    }
    count := -1;
    if n / 4 >= 11 {
      FillDigits(out, filler);
      return;
    }
    ShiftBytesIn(bytes, little, filler, out);
    ghost var digits := out[..];
    if sign == Negative {
      CutDigits(b, filler, digits, 10);
      assert digits[..10] == out[..10];
      count := NegInPlace(out, 10);
      assert out[..][..10] == out[..10];
      NegatedBytes(b, digits, out[..], count);
      if n <= 32 { FitsKept(b, Negative); }
      assert out[..][..count] == out[..count];
    } else {
      CutDigits(b, filler, digits, 8);
      ValBound(b, 256);
      if n <= 32 { FitsKept(b, Positive); }
      count := CountDigits(out[..], 8);
      assert out[..][..8] == out[..8];
      CutAt(out[..8], count);
      assert out[..8][..count] == out[..count];
    }
  }

  lemma CutAt(s: seq<int>, k: nat)
    requires k == Significant(s)
    ensures k <= |s| && Significant(s[..k]) == k && V32(s[..k]) == V32(s)
  {
    SignificantValue(s, 0x1_0000_0000);
    SignificantCut(s, k);
  }

  lemma SignificantCut(s: seq<int>, k: nat)
    requires k == Significant(s)
    ensures Significant(s[..k]) == k
  {}

  lemma NegatedBytes(b: seq<u8>, digits: seq<u32>, out: seq<u32>, count: nat)
    requires |digits| == |out| == 11 && TopBit(b) && count == Significant(out[..10])
    requires V32(out[..10]) == Complement(V32(digits[..10]), 10)
    requires Room(10) > 0 && V32(digits[..10]) == (Val(b, 256) - Pow(256, |b|)) % Room(10)
    ensures count <= 10 && Significant(out[..count]) == count
    ensures V32(out[..count]) == Abs(BytesValue(b, true)) % Room(10)
  {
    hide Val, Pow, Room;
    SignificantCut(out[..10], count);
    assert out[..10][..count] == out[..count];
    SignificantValue(out[..10], 0x1_0000_0000);
    ValBound(b, 256);
    NegatedMod(Val(b, 256) - Pow(256, |b|), Room(10));
  }

  lemma NegatedMod(x: int, m: int)
    requires m > 0
    ensures (-x) % m == if x % m == 0 then 0 else m - x % m
  {
    DivMod(x, m);
    MulDist(m, x / m, 1);
    if x % m == 0 {
      DivModUnique(-x, m, -(x / m), 0);
    } else {
      DivModUnique(-x, m, -(x / m) - 1, m - x % m);
    }
  }

  /** Up to 32 bytes fit the digits kept. */
  lemma FitsKept(b: seq<u8>, sign: Sign)
    requires |b| <= 32
    ensures 0 <= Val(b, 256) < Pow(256, |b|) <= Room(Kept(sign))
    ensures forall x: int :: 0 <= x < Room(Kept(sign)) ==> x % Room(Kept(sign)) == x
    ensures TopBit(b) ==> Abs(BytesValue(b, true)) < Room(Kept(sign))
  {
    hide Val, Pow;
    ValBound(b, 256);
    PowMono(256, |b|, 32);
    PowMono(256, 32, 40);
    PowBytes(8);
    PowBytes(10);
    if TopBit(b) { TopBitHalf(b); }
    forall x: int | 0 <= x < Room(Kept(sign)) ensures x % Room(Kept(sign)) == x {
      DivModUnique(x, Room(Kept(sign)), 0, x);
    }
  }

  lemma StartShifted(digits: seq<u32>, b: seq<u8>, filler: u8)
    requires |b| <= 44 && |digits| == 11 && (filler == 0 || filler == 255)
    requires forall k :: 0 <= k < 11 ==> digits[k] == 16843009 * filler
    ensures Shifted(digits, Padded(b, filler), filler, |b|)
  {
    var e := Padded(b, filler);
    forall k | 0 <= k < 11 ensures digits[k] == WordOf(Window(e, filler, |b|, k)) {
      assert Window(e, filler, |b|, k) == [filler, filler, filler, filler];
    }
  }

  method FillDigits(out: array<u32>, filler: u8)
    requires filler == 0 || filler == 255
    modifies out
    ensures forall k :: 0 <= k < out.Length ==> out[k] == 16843009 * filler
  {
    var word: u32 := if filler == 0 then 0 else 0xFFFF_FFFF;
    for i := 0 to out.Length
      invariant forall k :: 0 <= k < i ==> out[k] == word
    {
      out[i] := word;
    }
  }

  // ---- to bytes ----

  function BytesOfDigit(d: u32): (b: seq<u8>)
    ensures |b| == 4
  {
    [d % 256, d / 256 % 256, d / 65536 % 256, d / 16777216]
  }

  function BytesOf(s: seq<u32>): (b: seq<u8>)
    ensures |b| == 4 * |s|
  {
    if |s| == 0 then [] else BytesOf(s[..|s| - 1]) + BytesOfDigit(s[|s| - 1])
  }

  lemma DigitBytes(d: u32)
    ensures Val(BytesOfDigit(d), 256) == d
  {
    hide Val;
    var x: int := d;
    FourDigits(x % 256, x / 256 % 256, x / 65536 % 256, x / 16777216, []);
    assert BytesOfDigit(d) == [x % 256, x / 256 % 256, x / 65536 % 256, x / 16777216] + [];
    NoDigits();
    ByteParts(x, x / 256, x / 65536, x / 16777216);
  }

  lemma NoDigits()
    ensures Val([], 256) == 0
  {}

  lemma ByteParts(x: int, a: int, b: int, c: int)
    requires 0 <= x && a == x / 256 && b == x / 65536 && c == x / 16777216
    ensures x == x % 256 + 256 * (a % 256) + 65536 * (b % 256) + 16777216 * c
  {
    Nested(x, 256);
    Nested(x, 65536);
  }

  lemma Nested(x: int, p: int)
    requires 0 <= x && p in {256, 65536}
    ensures x / (256 * p) == x / p / 256
  {
    var q, r := x / p / 256, x / p % 256;
    assert x / p == 256 * q + r;
    DivModUnique(x, 256 * p, q, p * r + x % p);
  }

  lemma {:induction false} BytesOfValue(s: seq<u32>)
    ensures Val(BytesOf(s), 256) == V32(s)
  {
    if |s| > 0 {
      var n := |s| - 1;
      BytesOfValue(s[..n]);
      DigitBytes(s[n]);
      ValAppend(BytesOf(s[..n]), BytesOfDigit(s[n]), 256);
      assert s == s[..n] + [s[n]];
      ValSnoc(s[..n], s[n], 0x1_0000_0000);
      PowBytes(n);
    }
  }

  lemma {:induction false} LittleTop(m: nat)
    requires m > 0
    ensures |Little(m)| > 0 && Little(m)[|Little(m)| - 1] != 0
  {
    if m / 256 > 0 { LittleTop(m / 256); }
  }

  /** All but the top digit in full and the top digit without leading zeros. */
  lemma LittleOfDigits(m: seq<u32>, c: nat)
    requires c + 1 == Significant(m)
    ensures V32(m) > 0 && Little(V32(m)) == BytesOf(m[..c]) + Little(m[c])
  {
    hide Val, Pow, Little, BytesOf, Significant;
    var x: int := m[c];
    var s := BytesOf(m[..c]) + Little(x);
    LittleTop(x);
    LittleUnique(s);
    BytesOfValue(m[..c]);
    LittleVal(x);
    ValAppend(BytesOf(m[..c]), Little(x), 256);
    PowBytes(c);
    ValStep(m, c, 0x1_0000_0000);
    SignificantValue(m, 0x1_0000_0000);
    if V32(m) == 0 { EmptyLittle(); }
  }

  lemma EmptyLittle()
    ensures Little(0) == []
  {}

  /** How many bytes a digit takes, by its leading zeros. */
  lemma BytesByZeros(x: u32, n: nat)
    requires 0 < x && n <= 31 && 0x8000_0000 <= Shl(x, n) < 0x1_0000_0000
    ensures NumBytes(x) == 4 - n / 8
  {
    hide Pow, NumBytes;
    var v: int, q, p: int := x, n / 8, Pow(2, n);
    var lo: int, hi: int := Pow(2, 8 * q), Pow(2, 8 * q + 7);
    PowMono(2, 8 * q, n);
    PowMono(2, n, 8 * q + 7);
    MulMono(v, lo, p);
    MulMono(v, p, hi);
    SmallPows();
    SmallBytes(x);
    ByteRange(v, q, lo, hi);
  }

  lemma ByteRange(v: int, q: nat, lo: int, hi: int)
    requires v > 0 && v * lo < 0x1_0000_0000 && v * hi >= 0x8000_0000 && q < 4
    requires q == 0 ==> lo == 1 && hi == 128
    requires q == 1 ==> lo == 256 && hi == 32768
    requires q == 2 ==> lo == 65536 && hi == 0x80_0000
    requires q == 3 ==> lo == 0x100_0000 && hi == 0x8000_0000
    ensures q == 0 ==> 0x100_0000 <= v
    ensures q == 1 ==> 65536 <= v < 0x100_0000
    ensures q == 2 ==> 256 <= v < 65536
    ensures q == 3 ==> v < 256
  {}

  lemma SmallPows()
    ensures Pow(2, 0) == 1 && Pow(2, 7) == 128 && Pow(2, 8) == 256 && Pow(2, 15) == 32768 && Pow(2, 16) == 65536
    ensures Pow(2, 23) == 0x80_0000 && Pow(2, 24) == 0x100_0000 && Pow(2, 31) == 0x8000_0000
  {
    assert Pow(2, 7) == 128;
    PowAdd(2, 8, 7); PowAdd(2, 8, 8); PowAdd(2, 16, 7); PowAdd(2, 16, 8); PowAdd(2, 24, 7);
  }

  lemma SmallBytes(x: u32)
    requires x > 0
    ensures NumBytes(x) == if x < 256 then 1 else if x < 65536 then 2 else if x < 0x100_0000 then 3 else 4
  {
    var v: int := x;
    var a := v / 256; var b := a / 256; var c := b / 256;
    assert NumBytes(v) == 1 + NumBytes(a);
    assert NumBytes(a) == if a == 0 then 0 else 1 + NumBytes(b);
    assert NumBytes(b) == if b == 0 then 0 else 1 + NumBytes(c);
    assert c < 256 && NumBytes(c) == if c == 0 then 0 else 1 + NumBytes(c / 256);
    assert NumBytes(0) == 0;
  }

  /** intn_required_unsigned_integer_bytes */
  method RequiredUnsignedBytes(m: seq<u32>) returns (n: nat)
    ensures V32(m) >= 0 && n == NumBytes(V32(m))
  {
    hide Val, Pow, NumBytes, Significant, Little;
    V32Bound(m);
    n := 0;
    var i := |m| - 1;
    while i >= 0 && m[i] == 0
      invariant -1 <= i < |m| && forall k :: i < k < |m| ==> m[k] == 0
    {
      i := i - 1;
    }
    SignificantUnique(m, i + 1);
    if i >= 0 {
      var zeros := LeadingZeros32(m[i]);
      n := (i + 1) * 4 - zeros / 8;
      BytesByZeros(m[i], zeros);
      LittleOfDigits(m, i);
      LittleVal(V32(m));
      LittleVal(m[i]);
    } else {
      ValZeros(m, 0x1_0000_0000);
      assert NumBytes(0) == 0 by { NoBytes(); }
    }
  }

  lemma NoBytes()
    ensures NumBytes(0) == 0
  {}

  /** The magnitude's bytes, least significant first and no more than needed, or -1. */
  method CopyMagnitude(m: seq<u32>, c: nat, out: array<u8>, outLen: nat) returns (k: int)
    requires c + 1 == Significant(m) && outLen <= out.Length
    modifies out
    ensures V32(m) > 0 && (k == -1 <==> NumBytes(V32(m)) > outLen)
    ensures k != -1 ==> 0 < k <= outLen && out[..k] == Little(V32(m))
    ensures forall i :: outLen <= i < out.Length ==> out[i] == old(out[i])
  {
    hide *;
    LittleOfDigits(m, c);
    LittleVal(V32(m));
    LittleTop(m[c]);
    k := -1;
    if 4 * c > outLen { return; }
    for i := 0 to c
      invariant out[..4 * i] == BytesOf(m[..i])
      invariant forall i :: outLen <= i < out.Length ==> out[i] == old(out[i])
    {
      var d: u32 := m[i];
      ghost var done := out[..4 * i];
      PutDigit(out, 4 * i, d);
      BytesOfSnoc(m, i);
      assert out[..4 * (i + 1)] == done + out[4 * i..4 * i + 4];
    }
    k := CopyTop(m[c], out, 4 * c, outLen);
    if k != -1 { assert out[..k] == out[..4 * c] + out[4 * c..k]; }
  }

  lemma BytesOfSnoc(m: seq<u32>, i: nat)
    requires i < |m|
    ensures BytesOf(m[..i + 1]) == BytesOf(m[..i]) + BytesOfDigit(m[i])
  {
    assert m[..i + 1][..i] == m[..i];
  }

  method PutDigit(out: array<u8>, at: nat, d: u32)
    requires at + 4 <= out.Length
    modifies out
    ensures out[at..at + 4] == BytesOfDigit(d)
    ensures forall i :: 0 <= i < out.Length && !(at <= i < at + 4) ==> out[i] == old(out[i])
  {
    var x: int := d;
    out[at] := x % 256;
    out[at + 1] := x / 256 % 256;
    out[at + 2] := x / 65536 % 256;
    out[at + 3] := x / 16777216;
  }

  lemma LittleStep(m: nat)
    requires m > 0
    ensures Little(m) == [m % 256] + Little(m / 256)
  {}

  method CopyTop(d: u32, out: array<u8>, at: nat, outLen: nat) returns (k: int)
    requires d > 0 && at <= outLen <= out.Length
    modifies out
    ensures k == -1 <==> at + |Little(d)| > outLen
    ensures k != -1 ==> k == at + |Little(d)| && out[at..k] == Little(d)
    ensures forall i :: 0 <= i < at || outLen <= i < out.Length ==> out[i] == old(out[i])
  {
    hide Little, NumBytes, Val;
    LittleVal(d);
    SmallBytes(d);
    EmptyLittle();
    var last: int := d;
    k := at;
    while k < at + 4 && last != 0
      invariant at <= k <= outLen && 0 <= last
      invariant out[at..k] + Little(last) == Little(d)
      invariant forall i :: 0 <= i < at || outLen <= i < out.Length ==> out[i] == old(out[i])
    {
      LittleStep(last);
      if k >= outLen { k := -1; return; }
      ghost var done, was := out[at..k], last;
      out[k] := last % 256;
      last := last / 256;
      k := k + 1;
      assert out[at..k] == done + [was % 256];
    }
  }

  lemma NegatedBytesValue(d: seq<u8>, c: seq<int>, out: seq<u8>)
    requires |c| == |d| + 1 && c[0] == 1 && 0 <= c[|d|] <= 1 && Val(d, 256) > 0
    requires Carries(d, -1, seq(|d|, _ => 255), c, out, 256)
    ensures Val(out, 256) == Pow(256, |d|) - Val(d, 256)
  {
    hide Val, Pow;
    AllFF(|d|);
    ValBound(d, 256);
    ValBound(out, 256);
    CarryChain(d, -1, seq(|d|, _ => 255), c, out, 256);
  }

  /** The first k bytes negated: inverted, and one added. */
  method ComplementBytes(out: array<u8>, k: nat)
    requires k <= out.Length && Val(out[..k], 256) > 0
    modifies out
    ensures Val(out[..k], 256) == Pow(256, k) - old(Val(out[..k], 256))
    ensures forall i :: k <= i < out.Length ==> out[i] == old(out[i])
  {
    hide Val, Pow;
    ghost var before := out[..k];
    ghost var ones := seq(k, _ => 255);
    var carry := 1;
    ghost var c := [1];
    for i := 0 to k
      invariant 0 <= carry <= 1 && |c| == i + 1 && c[0] == 1 && c[i] == carry
      invariant Carries(before[..i], -1, ones[..i], c, out[..i], 256)
      invariant forall x :: i <= x < k ==> out[x] == before[x]
      invariant forall x :: k <= x < out.Length ==> out[x] == old(out[x])
    {
      var byte: int := out[i];
      var temp := 255 - byte + carry;
      ghost var done := out[..i];
      out[i] := temp % 256;
      CarriesSnoc(before[..i], -1, ones[..i], c, done, 256, before[i], 255, temp % 256, temp / 256);
      assert before[..i + 1] == before[..i] + [before[i]] && ones[..i + 1] == ones[..i] + [255];
      carry := temp / 256;
      assert out[..i + 1] == done + [out[i]];
      c := c + [carry];
    }
    assert before[..k] == before && ones[..k] == ones;
    NegatedBytesValue(before, c, out[..k]);
  }

  method FillBytes(out: array<u8>, from: nat, to: nat, filler: u8)
    requires from <= to <= out.Length
    modifies out
    ensures forall i :: from <= i < to ==> out[i] == filler
    ensures forall i :: 0 <= i < from || to <= i < out.Length ==> out[i] == old(out[i])
  {
    for i := from to to
      invariant forall x :: from <= x < i ==> out[x] == filler
      invariant forall x :: 0 <= x < from || to <= x < out.Length ==> out[x] == old(out[x])
    {
      out[i] := filler;
    }
  }

  /** The rotation for big-endian output. */
  method ReverseBytes(out: array<u8>, n: nat)
    requires n <= out.Length
    modifies out
    ensures out[..n] == Reverse(old(out[..n]))
    ensures forall i :: n <= i < out.Length ==> out[i] == old(out[i])
  {
    for i := 0 to n / 2
      invariant forall x :: 0 <= x < i ==> out[x] == old(out[n - 1 - x]) && out[n - 1 - x] == old(out[x])
      invariant forall x :: i <= x < n - i ==> out[x] == old(out[x])
      invariant forall x :: n <= x < out.Length ==> out[x] == old(out[x])
    {
      out[i], out[n - 1 - i] := out[n - 1 - i], out[i];
    }
  }

  lemma ReverseTwice(s: seq<u8>)
    ensures Reverse(Reverse(s)) == s
  {}

  /** A value kept to n bytes. */
  function Modulo(v: int, n: nat): int { if v < 0 then v + Pow(256, n) else v }

  /** intn_to_integer_bytes: -1 when the magnitude does not fit, and otherwise the value
      modulo the room of the bytes. */
  method ToIntegerBytes(m: seq<u32>, sign: Sign, little: bool, out: array<u8>, outLen: nat) returns (r: int)
    requires outLen <= out.Length
    modifies out
    ensures V32(m) >= 0
    ensures r == if NumBytes(V32(m)) > outLen then -1 else outLen
    ensures r != -1 ==> Val(InOrder(out[..outLen], little), 256) == Modulo(Signed(sign, m), outLen)
    ensures forall i :: outLen <= i < out.Length ==> out[i] == old(out[i])
  {
    hide Val, Pow, NumBytes, Significant, Little, Modulo, Reverse;
    V32Bound(m);
    var count := CountDigits(m, |m|);
    assert m[..|m|] == m;
    if count == 0 {
      FillBytes(out, 0, outLen, 0);
      ZeroBytes(m, sign, little, out[..outLen]);
      return outLen;
    }
    var k := CopyMagnitude(m, count - 1, out, outLen);
    if k == -1 { return -1; }
    LittleVal(V32(m));
    assert V32(m) == Val(out[..k], 256);
    var filler: u8 := 0;
    if sign == Negative {
      filler := 255;
      ComplementBytes(out, k);
    }
    ghost var low := out[..k];
    FillBytes(out, k, outLen, filler);
    assert out[..outLen] == low + seq(outLen - k, _ => filler);
    FilledBytes(m, sign, low, outLen);
    ghost var result := out[..outLen];
    if !little {
      ReverseBytes(out, outLen);
      ReverseTwice(result);
    }
    return outLen;
  }

  lemma FilledBytes(m: seq<u32>, sign: Sign, low: seq<u8>, n: nat)
    requires 0 < |low| <= n && V32(m) > 0
    requires Val(low, 256) == if sign == Negative then Pow(256, |low|) - V32(m) else V32(m)
    ensures Val(low + seq(n - |low|, _ => if sign == Negative then 255 else 0), 256) == Modulo(Signed(sign, m), n)
  {
    hide Val, Pow;
    PaddedValue(low, if sign == Negative then 255 else 0, n);
  }

  lemma ZeroBytes(m: seq<u32>, sign: Sign, little: bool, out: seq<u8>)
    requires Significant(m) == 0 && forall i :: 0 <= i < |out| ==> out[i] == 0
    ensures V32(m) == 0 && NumBytes(V32(m)) == 0
    ensures Val(InOrder(out, little), 256) == Modulo(Signed(sign, m), |out|)
  {
    hide Val;
    ValZeros(m, 0x1_0000_0000);
    ValZeros(InOrder(out, little), 256);
  }

  /** Bytes written for a value give the value back when it fits: as unsigned bytes if it
      is not negative, as signed bytes if it is within the two's complement range. */
  lemma BytesRoundTrip(v: int, n: nat, b: seq<u8>, signed: bool)
    requires |b| == n && 0 <= v + Pow(256, n) && v < Pow(256, n) && Val(b, 256) == Modulo(v, n)
    ensures BytesValue(b, signed) == v <==> if signed then 0 <= 2 * v + Pow(256, n) && 2 * v < Pow(256, n) else v >= 0
  {
    hide Val, Pow;
    ValBound(b, 256);
    if n > 0 { TopBitHalf(b); } else { assert Pow(256, 0) == 1 by { PowZero(); } }
  }

  lemma PowZero()
    ensures Pow(256, 0) == 1
  {}
}
