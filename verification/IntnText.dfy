/** Printing a multi-precision integer in any base from 2 to 36, a chunk of digits
    per division. */
module IntnText {
  import opened Prelude
  import opened Digits
  import opened Division
  import opened Intn

  /** For each base: its largest power below 2^15, the exponent, and the digits of
      2^256 - 1 less one. */
  datatype Row = Row(chunk: u16, pad: nat, maxLen: nat)

  /** The tables bases, pad and base_max_lens, from base 2 to base 36. */
  function Table(base: nat): Row
    requires 2 <= base <= 36
  {
    match base
    case 2 => Row(16384, 14, 255)
    case 3 => Row(19683, 9, 161)
    case 4 => Row(16384, 7, 127)
    case 5 => Row(15625, 6, 110)
    case 6 => Row(7776, 5, 99)
    case 7 => Row(16807, 5, 91)
    case 8 => Row(4096, 4, 85)
    case 9 => Row(6561, 4, 80)
    case 10 => Row(10000, 4, 77)
    case 11 => Row(14641, 4, 74)
    case 12 => Row(20736, 4, 71)
    case 13 => Row(28561, 4, 69)
    case 14 => Row(2744, 3, 67)
    case 15 => Row(3375, 3, 65)
    case 16 => Row(4096, 3, 63)
    case 17 => Row(4913, 3, 62)
    case 18 => Row(5832, 3, 61)
    case 19 => Row(6859, 3, 60)
    case 20 => Row(8000, 3, 59)
    case 21 => Row(9261, 3, 58)
    case 22 => Row(10648, 3, 57)
    case 23 => Row(12167, 3, 56)
    case 24 => Row(13824, 3, 55)
    case 25 => Row(15625, 3, 55)
    case 26 => Row(17576, 3, 54)
    case 27 => Row(19683, 3, 53)
    case 28 => Row(21952, 3, 53)
    case 29 => Row(24389, 3, 52)
    case 30 => Row(27000, 3, 52)
    case 31 => Row(29791, 3, 51)
    case 32 => Row(1024, 2, 51)
    case 33 => Row(1089, 2, 50)
    case 34 => Row(1156, 2, 50)
    case 35 => Row(1225, 2, 49)
    case _ => Row(1296, 2, 49)
  }

  /** 2^256 */
  const LIMIT: nat := 0x10000000000000000000000000000000000000000000000000000000000000000

  // ---- the tables ----

  /** Power by three squarings a step. */
  function FastPow(b: nat, n: nat): nat
  {
    if n < 8 then Pow(b, n)
    else
      var h := FastPow(b, n / 8);
      var g := h * h;
      var f := g * g;
      f * f * Pow(b, n % 8)
  }

  lemma {:induction false} FastPowIsPow(b: nat, n: nat)
    ensures FastPow(b, n) == Pow(b, n)
  {
    if n >= 8 {
      var k := n / 8;
      FastPowIsPow(b, k);
      hide Pow;
      PowAdd(b, k, k);
      PowAdd(b, 2 * k, 2 * k);
      PowAdd(b, 4 * k, 4 * k);
      PowAdd(b, 8 * k, n % 8);
    }
  }

  /** The chunk is the power its digit count says, and the buffer has room for 256 bits. */
  ghost predicate RowHolds(base: nat, chunk: nat, pad: nat, maxLen: nat) {
    FastPow(base, pad) == chunk && FastPow(base, maxLen + 1) >= LIMIT
  }

  lemma Rows2()
    ensures RowHolds(2, 16384, 14, 255)
    ensures RowHolds(3, 19683, 9, 161)
    ensures RowHolds(4, 16384, 7, 127)
  {}

  lemma Rows5()
    ensures RowHolds(5, 15625, 6, 110)
    ensures RowHolds(6, 7776, 5, 99)
    ensures RowHolds(7, 16807, 5, 91)
  {}

  lemma Rows8()
    ensures RowHolds(8, 4096, 4, 85)
    ensures RowHolds(9, 6561, 4, 80)
    ensures RowHolds(10, 10000, 4, 77)
  {}

  lemma Rows11()
    ensures RowHolds(11, 14641, 4, 74)
    ensures RowHolds(12, 20736, 4, 71)
    ensures RowHolds(13, 28561, 4, 69)
  {}

  lemma Rows14()
    ensures RowHolds(14, 2744, 3, 67)
    ensures RowHolds(15, 3375, 3, 65)
    ensures RowHolds(16, 4096, 3, 63)
  {}

  lemma Rows17()
    ensures RowHolds(17, 4913, 3, 62)
    ensures RowHolds(18, 5832, 3, 61)
    ensures RowHolds(19, 6859, 3, 60)
  {}

  lemma Rows20()
    ensures RowHolds(20, 8000, 3, 59)
    ensures RowHolds(21, 9261, 3, 58)
    ensures RowHolds(22, 10648, 3, 57)
  {}

  lemma Rows23()
    ensures RowHolds(23, 12167, 3, 56)
    ensures RowHolds(24, 13824, 3, 55)
    ensures RowHolds(25, 15625, 3, 55)
  {}

  lemma Rows26()
    ensures RowHolds(26, 17576, 3, 54)
    ensures RowHolds(27, 19683, 3, 53)
    ensures RowHolds(28, 21952, 3, 53)
  {}

  lemma Rows29()
    ensures RowHolds(29, 24389, 3, 52)
    ensures RowHolds(30, 27000, 3, 52)
    ensures RowHolds(31, 29791, 3, 51)
  {}

  lemma Rows32()
    ensures RowHolds(32, 1024, 2, 51)
    ensures RowHolds(33, 1089, 2, 50)
    ensures RowHolds(34, 1156, 2, 50)
  {}

  lemma Rows35()
    ensures RowHolds(35, 1225, 2, 49)
    ensures RowHolds(36, 1296, 2, 49)
  {}

  lemma AllRows(base: nat)
    requires 2 <= base <= 36
    ensures RowHolds(base, Table(base).chunk, Table(base).pad, Table(base).maxLen)
  {
    hide RowHolds;
    Rows2();
    Rows5();
    Rows8();
    Rows11();
    Rows14();
    Rows17();
    Rows20();
    Rows23();
    Rows26();
    Rows29();
    Rows32();
    Rows35();
  }

  lemma Tables(base: nat)
    requires 2 <= base <= 36
    ensures Table(base).pad >= 1 && Pow(base, Table(base).pad) == Table(base).chunk
    ensures Pow(base, Table(base).maxLen + 1) >= LIMIT
  {
    assert Table(base).pad >= 1;
    hide Pow, FastPow, Table;
    AllRows(base);
    FastPowIsPow(base, Table(base).pad);
    FastPowIsPow(base, Table(base).maxLen + 1);
  }

  // ---- numerals as text ----

  /** Value of a digit character, 0-9 then A-Z. */
  function DigitValue(c: char): int {
    if '0' <= c <= '9' then c as int - '0' as int
    else if 'A' <= c <= 'Z' then c as int - 'A' as int + 10
    else 36
  }

  function DigitChar(r: nat): (c: char)
    requires r < 36
    ensures DigitValue(c) == r
  {
    if r <= 9 then ('0' as int + r) as char else ('A' as int + r - 10) as char
  }

  /** The number a numeral denotes, most significant digit first. */
  function Eval(s: string, base: nat): int {
    if |s| == 0 then 0 else Eval(s[..|s| - 1], base) * base + DigitValue(s[|s| - 1])
  }

  predicate IsNumeral(s: string, base: nat) {
    forall i :: 0 <= i < |s| ==> DigitValue(s[i]) < base
  }

  lemma {:induction false} EvalAppend(s: string, t: string, base: nat)
    ensures Eval(s + t, base) == Eval(s, base) * Pow(base, |t|) + Eval(t, base)
  {
    if |t| == 0 {
      assert s + t == s;
    } else {
      var k := |t| - 1;
      assert (s + t)[..|s + t| - 1] == s + t[..k];
      EvalAppend(s, t[..k], base);
      assert Eval(s + t, base) == Eval(s + t[..k], base) * base + DigitValue(t[k]);
      assert Eval(t, base) == Eval(t[..k], base) * base + DigitValue(t[k]);
      assert Pow(base, |t|) == base * Pow(base, k);
      hide Eval, Pow;
      AppendAlgebra(Eval(s, base), Pow(base, k), Eval(t[..k], base), base);
    }
  }

  lemma AppendAlgebra(x: int, p: int, y: int, b: int)
    ensures (x * p + y) * b == x * (b * p) + y * b
  {
    MulAssoc(x, b, p);
    MulAssoc(b, x, p);
  }

  lemma {:induction false} EvalZeros(n: nat, s: string, base: nat)
    ensures Eval(seq(n, _ => '0') + s, base) == Eval(s, base)
  {
    hide Pow;
    var z := seq(n, _ => '0');
    EvalAppend(z, s, base);
    if n > 0 {
      EvalZeros(n - 1, "", base);
      assert z[..n - 1] == seq(n - 1, _ => '0') + "";
    }
  }

  /** The quotient q above the digits already written makes n. */
  ghost predicate Split(n: int, q: int, text: string, base: nat) {
    n == Times(q, Pow(base, |text|)) + Eval(text, base) && 0 <= Eval(text, base) < Pow(base, |text|)
  }

  /** uintptr_to_a_n: digits of n, written leftwards from end. k bounds their number. */
  method WriteAscii(n: nat, base: nat, buf: array<char>, end: nat, ghost k: nat) returns (len: nat)
    requires 2 <= base <= 36 && end <= buf.Length && 1 <= k <= end && n < Pow(base, k)
    modifies buf
    ensures 1 <= len <= k
    ensures forall i :: 0 <= i < buf.Length && !(end - len <= i < end) ==> buf[i] == old(buf[i])
    ensures IsNumeral(buf[end - len..end], base) && Eval(buf[end - len..end], base) == n
    ensures n > 0 ==> buf[end - len] != '0'
    ensures len == 1 || Pow(base, len - 1) <= n
  {
    var c := end;
    var q := n;
    ghost var text: string := [];
    assert Eval(text, base) == 0 && Pow(base, 0) == 1;
    assert Split(n, q, text, base);
    hide Pow, Eval, Split, Times;
    while true
      invariant 0 <= c <= end && text == buf[c..end] && |text| < k
      invariant forall i :: 0 <= i < buf.Length && !(c <= i < end) ==> buf[i] == old(buf[i])
      invariant IsNumeral(text, base) && Split(n, q, text, base)
      invariant c == end ==> q == n
      invariant c < end ==> q > 0
      decreases q
    {
      c := c - 1;
      var r := q % base;
      OneMoreDigit(n, q, base, text);
      buf[c] := DigitChar(r);
      text := [DigitChar(r)] + text;
      assert buf[c..end] == text;
      q := q / base;
      if q == 0 {
        NothingLeft(n, text, base);
        break;
      }
      StillRoom(n, q, text, base, k);
    }
    len := end - c;
  }

  /** Peeling one digit off q keeps the value of quotient and text together. */
  lemma OneMoreDigit(n: int, q: nat, base: nat, text: string)
    requires 2 <= base <= 36 && Split(n, q, text, base)
    ensures 0 <= q % base < base && 0 <= q / base <= q && (q > 0 ==> q / base < q)
    ensures Split(n, q / base, [DigitChar(q % base)] + text, base)
    ensures q > 0 ==> Pow(base, |text|) <= n
    ensures q > 0 && q / base == 0 ==> q % base > 0
  {
    DivMod(q, base);
    Shrinks(q, base, q / base, q % base);
    var p, c := Pow(base, |text|), DigitChar(q % base);
    assert Pow(base, |[c] + text|) == base * p;
    OneChar(c, base);
    hide Pow, Eval;
    EvalAppend([c], text, base);
    DigitAlgebra(q, base, q / base, q % base, p, Eval(text, base));
  }

  lemma Shrinks(q: int, b: int, d: int, r: int)
    requires b >= 2 && q >= 0 && q == b * d + r && 0 <= r < b
    ensures 0 <= d <= q && (q > 0 ==> d < q) && (d == 0 ==> r == q)
  {
    if d < 0 { MulMono(b, d, -1); }
    MulMono(d, 2, b);
  }

  lemma OneChar(c: char, base: nat)
    ensures Eval([c], base) == DigitValue(c)
  {
    assert Eval([c][..0], base) == 0;
  }

  lemma DigitAlgebra(q: int, b: int, d: int, r: int, p: int, e: int)
    requires q >= 0 && q == b * d + r && 0 <= r < b && 0 <= e < p
    ensures Times(q, p) + e == Times(d, b * p) + (r * p + e) && 0 <= r * p + e < b * p
    ensures q > 0 ==> p <= Times(q, p) + e
  {
    MulAssoc(d, b, p);
    MulMono(p, r + 1, b);
    MulDist(p, r, 1);
    MulMono(p, 0, r);
    if q > 0 { MulMono(p, 1, q); }
  }

  lemma NothingLeft(n: int, text: string, base: nat)
    requires Split(n, 0, text, base)
    ensures n == Eval(text, base)
  {
    hide Pow, Eval;
  }

  /** A text with something nonzero above it is shorter than the bound. */
  lemma StillRoom(n: int, q: int, text: string, base: nat, k: nat)
    requires base >= 2 && q > 0 && Split(n, q, text, base) && n < Pow(base, k)
    ensures |text| < k && Pow(base, |text|) <= n
  {
    hide Pow, Eval;
    MulMono(Pow(base, |text|), 1, q);
    if |text| >= k { PowMono(base, k, |text|); }
  }

  // ---- the whole number ----

  lemma Room256(num: seq<u32>)
    requires |num| <= 8
    ensures V32(num) < LIMIT
  {
    V32Bound(num);
    PowMono(0x1_0000_0000, |num|, 8);
    assert Pow(0x1_0000_0000, 4) == 0x1_0000_0000_0000_0000_0000_0000_0000_0000;
    hide Pow;
    PowAdd(0x1_0000_0000, 4, 4);
  }

  /** One division by the chunk: quotient digits into q, count of them, and the rest. */
  method DivideChunk(u: array<u16>, q: array<u16>, m: nat, chunk: u16) returns (m': nat, r: u16)
    requires u != q && u.Length == q.Length == MAX_LEN16 && 1 <= m <= MAX_LEN16 && chunk > 0
    modifies q
    ensures m' <= m && (m' == 0 <==> V16(q[..m']) == 0)
    ensures V16(u[..m]) == Times(chunk, V16(q[..m'])) + r && r < chunk
  {
    hide Val, Pow, V16;
    var rest := new u16[1];
    var err := DivMnu16(q, rest, u[..], [chunk], m, 1);
    assert u[..][..m] == u[..m] && [chunk][..1] == [chunk];
    OneDigit(chunk);
    r := rest[0];
    OneDigit(r);
    assert rest[..1] == [r];
    DivMod(V16(u[..m]), chunk);
    ghost var quotient := q[..m];
    m' := CountDigits(q[..], m);
    assert q[..][..m] == quotient && quotient[..m'] == q[..m'];
    TrimmedHalves(quotient);
  }

  lemma TrimmedHalves(s: seq<u16>)
    ensures V16(s[..Significant(s)]) == V16(s)
    ensures Significant(s) == 0 <==> V16(s) == 0
  {
    SignificantValue(s, 65536);
    if Significant(s) > 0 { LongerIsLarger(s, Significant(s) - 1, 65536); }
  }

  /** What the printing loop keeps: the quotient still to print above the text
      written, which is a numeral at the end of the buffer. */
  ghost predicate Printing(n: int, u: int, text: string, base: nat) {
    IsNumeral(text, base) && Split(n, u, text, base)
  }

  /** A full chunk, padded, moves below the next quotient. */
  lemma PaddedChunk(n: int, u: int, q: int, r: int, text: string, w: string, base: nat, pad: nat)
    requires base >= 2 && Printing(n, u, text, base) && 1 <= |w| <= pad
    requires IsNumeral(w, base) && Eval(w, base) == r && 0 <= r < Pow(base, pad)
    requires u == Times(Pow(base, pad), q) + r
    ensures Printing(n, q, seq(pad - |w|, _ => '0') + w + text, base)
  {
    var z := seq(pad - |w|, _ => '0');
    hide Pow, Eval;
    EvalZeros(pad - |w|, w, base);
    EvalAppend(z + w, text, base);
    PowAdd(base, pad, |text|);
    DigitAlgebra2(u, Pow(base, pad), q, r, Pow(base, |text|), Eval(text, base));
  }

  lemma DigitAlgebra2(u: int, c: int, q: int, r: int, p: int, e: int)
    requires u == Times(c, q) + r && 0 <= r < c && 0 <= e < p
    ensures Times(u, p) + e == Times(q, c * p) + (r * p + e) && 0 <= r * p + e < c * p
  {
    MulComm(c, q);
    MulAssoc(q, c, p);
    MulMono(p, r + 1, c);
    MulDist(p, r, 1);
    MulMono(p, 0, r);
    assert (c * q + r) * p == (c * q) * p + r * p;
  }

  /** The last chunk stands at the front, unpadded. */
  lemma LastChunk(n: int, u: int, text: string, w: string, base: nat)
    requires base >= 2 && Printing(n, u, text, base) && IsNumeral(w, base) && Eval(w, base) == u
    ensures IsNumeral(w + text, base) && Eval(w + text, base) == n
  {
    hide Pow, Eval;
    EvalAppend(w, text, base);
  }

  /** What is left to print of a number below base^k fits the digits left of k. */
  lemma ChunkFits(n: int, u: int, r: int, text: string, base: nat, k: nat)
    requires base >= 2 && 0 <= r <= u && 0 < u && Printing(n, u, text, base) && n < Pow(base, k)
    ensures |text| < k && r < Pow(base, k - |text|)
  {
    hide Pow, Eval;
    StillRoom(n, u, text, base, k);
    PowAdd(base, k - |text|, |text|);
    var p := Pow(base, |text|);
    if r >= Pow(base, k - |text|) { MulMono(p, Pow(base, k - |text|), u); }
  }

  /** One iteration of the loop: divides, writes the chunk before end and, if digits
      remain, pads it to its full width. */
  method PrintChunk(u: array<u16>, q: array<u16>, m: nat, base: nat, buf: array<char>, end: nat,
                    ghost n: int, ghost text: string, ghost k: nat) returns (m': nat, end': nat, ghost text': string)
    requires u != q && u.Length == q.Length == MAX_LEN16 && 1 <= m <= MAX_LEN16
    requires 2 <= base <= 36 && end <= buf.Length && V16(u[..m]) > 0
    requires Table(base).pad >= 1 && Pow(base, Table(base).pad) == Table(base).chunk
    requires Printing(n, V16(u[..m]), text, base) && n < Pow(base, k) && end + |text| > k
    modifies q, buf
    ensures m' <= m && end' < end && text' == buf[end'..end] + text && end' + |text'| > k
    ensures forall i :: end <= i < buf.Length ==> buf[i] == old(buf[i])
    ensures m' == 0 ==> IsNumeral(text', base) && Eval(text', base) == n && text'[0] != '0' && |text'| <= k
    ensures m' > 0 ==> 0 < V16(q[..m']) < old(V16(u[..m])) && Printing(n, V16(q[..m']), text', base)
  {
    hide Pow, Eval, Val, V16, Split, Table;
    var r: u16;
    ghost var v := V16(u[..m]);
    m', r := DivideChunk(u, q, m, Table(base).chunk);
    QuotientSmaller(v, Table(base).chunk, V16(q[..m']), r, base, Table(base).pad, m' > 0);
    ChunkFits(n, v, r, text, base, k);
    var len := WriteAscii(r, base, buf, end, k - |text|);
    ghost var w := buf[end - len..end];
    end' := end - len;
    if m' != 0 {
      NarrowChunk(r, len, base, Table(base).pad);
      PaddedChunk(n, v, V16(q[..m']), r, text, w, base, Table(base).pad);
      var pad := Table(base).pad - len;
      text' := seq(pad, _ => '0') + w + text;
      V16Bound(q[..m']);
      StillRoom(n, V16(q[..m']), text', base, k);
      end' := WriteZeros(buf, end', pad);
      assert buf[end'..end] == seq(pad, _ => '0') + w;
    } else {
      LastChunk(n, v, text, w, base);
      text' := w + text;
    }
  }

  lemma QuotientSmaller(v: int, c: int, q: int, r: int, base: nat, pad: nat, more: bool)
    requires v > 0 && v == Times(c, q) + r && 0 <= r < c && c == Pow(base, pad) && base >= 2 && pad >= 1
    ensures 0 <= q < v && (q == 0 ==> r == v) && r <= v
  {
    PowMono(base, 1, pad);
    assert Pow(base, 1) == base;
    hide Pow;
    Shrinks(v, c, q, r);
    MulMono(c, 0, q);
  }

  lemma NarrowChunk(r: int, len: nat, base: nat, pad: nat)
    requires base >= 2 && pad >= 1 && 0 <= r < Pow(base, pad) && (len == 1 || (len >= 1 && Pow(base, len - 1) <= r))
    ensures len <= pad
  {
    hide Pow;
    if len > pad { PowMono(base, pad, len - 1); }
  }

  method WriteZeros(buf: array<char>, end: nat, pad: nat) returns (end': nat)
    requires pad <= end <= buf.Length
    modifies buf
    ensures end' == end - pad && (forall i :: end' <= i < end ==> buf[i] == '0')
    ensures forall i :: 0 <= i < buf.Length && !(end' <= i < end) ==> buf[i] == old(buf[i])
  {
    end' := end - pad;
    for i := 0 to pad
      invariant forall x :: end' <= x < end' + i ==> buf[x] == '0'
      invariant forall x :: 0 <= x < buf.Length && !(end' <= x < end) ==> buf[x] == old(buf[x])
    {
      buf[end' + i] := '0';
    }
  }

  /** The numeral of n in this base, with a minus sign for negative integers. */
  ghost predicate Prints(text: string, n: int, sign: Sign, base: nat) {
    var digits := if sign == Negative && |text| > 0 then text[1..] else text;
    && |digits| > 0 && (sign == Negative ==> text[0] == '-')
    && IsNumeral(digits, base) && Eval(digits, base) == n && digits[0] != '0'
  }

  /** The printing loop: all digits of n end up between end and the final NUL. */
  method PrintAll(u0: array<u16>, q0: array<u16>, m0: nat, base: nat, buf: array<char>, ghost n: int)
    returns (end: nat)
    requires u0 != q0 && u0.Length == q0.Length == MAX_LEN16 && 1 <= m0 <= MAX_LEN16
    requires 2 <= base <= 36 && Table(base).pad >= 1 && Pow(base, Table(base).pad) == Table(base).chunk
    requires buf.Length == Table(base).maxLen + 3 && n < Pow(base, Table(base).maxLen + 1)
    requires V16(u0[..m0]) == n > 0
    modifies u0, q0, buf
    ensures 1 <= end < buf.Length - 1
    ensures Prints(buf[end..buf.Length - 1], n, Positive, base)
  {
    hide Pow, Eval, Val, V16, Split, Table;
    var u, q, m := u0, q0, m0;
    ghost var k := Table(base).maxLen + 1;
    end := buf.Length - 1;
    ghost var text: string := [];
    NothingPrinted(n, base);
    while true
      invariant {u, q} == {u0, q0} && u != q && 1 <= m <= MAX_LEN16
      invariant 0 <= end < buf.Length && text == buf[end..buf.Length - 1]
      invariant V16(u[..m]) > 0 && Printing(n, V16(u[..m]), text, base)
      decreases V16(u[..m])
    {
      var m', end', text' := PrintChunk(u, q, m, base, buf, end, n, text, k);
      assert buf[end'..buf.Length - 1] == buf[end'..end] + buf[end..buf.Length - 1];
      u, q, m, end, text := q, u, m', end', text';
      assert buf[end..buf.Length - 1] == text;
      if m == 0 { break; }
    }
  }

  /** intn_to_string: the two flags say whether malloc and realloc succeed. */
  method ToString(num: seq<u32>, sign: Sign, base: nat, mallocOk: bool, reallocOk: bool) returns (res: Option<string>)
    requires 2 <= base <= 36 && |num| <= 8 && V32(num) > 0
    ensures res.None? <==> !mallocOk || !reallocOk
    ensures res.Some? ==> Prints(res.value, V32(num), sign, base)
    ensures res.Some? ==> |res.value| <= Table(base).maxLen + 2
  {
    hide Pow, Eval, Val, V16, V32, Table;
    Tables(base);
    Room256(num);
    if !mallocOk {
      return None;
    }
    var size := Table(base).maxLen + 3;
    var buf := new char[size];
    buf[size - 1] := '\0';
    var u := new u16[MAX_LEN16];
    var q := new u16[MAX_LEN16];
    var m := LoadHalves(num, u);
    var end := PrintAll(u, q, m, base, buf, V32(num));
    ghost var text := buf[end..size - 1];
    if sign == Negative {
      end := end - 1;
      buf[end] := '-';
      assert buf[end..size - 1][1..] == text;
    }
    if !reallocOk {
      return None;
    }
    res := Some(buf[end..size - 1]);
  }

  lemma NothingPrinted(n: int, base: nat)
    ensures Printing(n, n, "", base)
  {
    assert Pow(base, 0) == 1 && Eval("", base) == 0;
  }

  /** The 16-bit view of the number and its significant length. */
  method LoadHalves(num: seq<u32>, u: array<u16>) returns (m: nat)
    requires |num| <= 8 && V32(num) > 0 && u.Length == MAX_LEN16
    modifies u
    ensures 1 <= m <= MAX_LEN16 && V16(u[..m]) == V32(num)
  {
    hide Val, V16, V32, Halves;
    var h := Halves(num);
    for i := 0 to |h|
      invariant forall x :: 0 <= x < i ==> u[x] == h[x]
    {
      u[i] := h[i];
    }
    m := CountDigits(u[..], |h|);
    assert u[..][..|h|] == h;
    HalvesTrimmed(num);
    assert h[..m] == u[..m];
  }
}
