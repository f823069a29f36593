/** Laying out the digits of a float: decimal point, leading or trailing zeros, exponent.
    The text denotes the digits' number. */
module FloatText {
  import opened Prelude
  import opened Digits
  import opened IntnText
  import opened CachedPowers
  import opened Grisu
  import opened Grisu3

  /** Text without digit groups or spaces: before and behind the point, and an exponent. */
  datatype Parts = Parts(whole: string, frac: string, exp: Option<string>, e: int)

  function Written(p: Parts): string {
    p.whole + "." + p.frac + if p.exp.Some? then "e" + p.exp.value else ""
  }

  /** The decimal a text of these parts stands for. */
  function Meaning(p: Parts): real { Decimal(Eval(p.whole + p.frac, 10), p.e - |p.frac|) }

  predicate IsInteger(t: string, e: int) {
    if e < 0 then |t| > 1 && t[0] == '-' && IsNumeral(t[1..], 10) && t[1] != '0' && Eval(t[1..], 10) == -e
    else |t| > 0 && IsNumeral(t, 10) && Eval(t, 10) == e && (t[0] != '0' || |t| == 1)
  }

  /** A float as Erlang writes it: digits on both sides of the point, no superfluous zeros in
      front, and with an exponent one digit before the point. */
  ghost predicate WellWritten(p: Parts) {
    && 1 <= |p.whole| && 1 <= |p.frac| && IsNumeral(p.whole, 10) && IsNumeral(p.frac, 10)
    && (p.whole[0] != '0' || |p.whole| == 1)
    && if p.exp.Some? then IsInteger(p.exp.value, p.e) && |p.whole| == 1 && p.whole[0] != '0' else p.e == 0
  }

  /** The last digit behind the point, unless that is the zero an integer gets. */
  ghost predicate EndsWith(p: Parts, c: char) { p.frac == "0" || (|p.frac| > 0 && p.frac[|p.frac| - 1] == c) }

  // ---- moving characters ----

  /** lo..hi moved up by so many places, from the end. */
  method MoveUp(buf: array<char>, lo: nat, hi: nat, up: nat)
    requires lo <= hi && hi + up <= buf.Length
    modifies buf
    ensures buf[lo + up..hi + up] == old(buf[lo..hi])
    ensures forall i :: 0 <= i < buf.Length && !(lo + up <= i < hi + up) ==> buf[i] == old(buf[i])
  {
    for i := hi downto lo
      invariant forall x :: 0 <= x < buf.Length ==>
                buf[x] == if i + up <= x < hi + up then old(buf[x - up]) else old(buf[x])
    {
      buf[i + up] := buf[i];
    }
  }

  method Fill(buf: array<char>, lo: nat, hi: nat, c: char)
    requires lo <= hi <= buf.Length
    modifies buf
    ensures forall i :: 0 <= i < buf.Length ==> buf[i] == if lo <= i < hi then c else old(buf[i])
  {
    for i := lo to hi
      invariant forall x :: 0 <= x < buf.Length ==> buf[x] == if lo <= x < i then c else old(buf[x])
    {
      buf[i] := c;
    }
  }

  /** int32_write_to_ascii_buf in base ten: an integer at the end of a buffer. */
  method IntegerText(n: int, tmp: array<char>) returns (len: nat)
    requires Abs(n) < 10000000000 && tmp.Length == 12
    modifies tmp
    ensures len <= 11 && IsInteger(tmp[12 - len..12], n)
  {
    PowersOfTen();
    hide Pow, Eval, IsNumeral;
    len := WriteAscii(Abs(n), 10, tmp, 12, 10);
    ghost var digits := tmp[12 - len..12];
    if n < 0 {
      tmp[11 - len] := '-';
      len := len + 1;
      assert tmp[12 - len..12] == ['-'] + digits;
    } else {
      SmallNumeral(digits, n);
    }
  }

  method CopyChars(dst: array<char>, at: nat, src: array<char>, from: nat, n: nat)
    requires dst != src && at + n <= dst.Length && from + n <= src.Length
    modifies dst
    ensures dst[at..at + n] == src[from..from + n]
    ensures forall i :: 0 <= i < dst.Length && !(at <= i < at + n) ==> dst[i] == old(dst[i])
  {
    for i := 0 to n
      invariant forall x :: 0 <= x < dst.Length ==>
                dst[x] == if at <= x < at + i then src[from + x - at] else old(dst[x])
    {
      dst[at + i] := src[from + i];
    }
  }

  /** write_exponent */
  method WriteExponent(exp: int, dst: array<char>, at: nat) returns (n: nat)
    requires Abs(exp) < 10000000000 && at + 11 <= dst.Length
    modifies dst
    ensures n <= 11 && IsInteger(dst[at..at + n], exp)
    ensures forall i :: 0 <= i < dst.Length && !(at <= i < at + n) ==> dst[i] == old(dst[i])
  {
    hide IsInteger;
    var tmp := new char[12];
    n := IntegerText(exp, tmp);
    CopyChars(dst, at, tmp, 12 - n, n);
  }

  lemma SmallNumeral(t: string, n: nat)
    requires |t| > 0 && IsNumeral(t, 10) && Eval(t, 10) == n && (n > 0 ==> t[0] != '0')
    requires |t| == 1 || Pow(10, |t| - 1) <= n
    ensures t[0] != '0' || |t| == 1
  {}

  // ---- what the layouts mean ----

  lemma TenfoldDecimal(d: int, x: int, n: nat)
    ensures Decimal(d * Pow(10, n), x - n) == Decimal(d, x)
  {
    hide Pow, RPow;
    SamePow(10, n);
    CastTimes(d, Pow(10, n));
    RPowAdd(10.0, n, x - n);
    assert n + (x - n) == x;
    Regroup(d as real, RPow(10.0, n), RPow(10.0, x - n));
  }

  lemma {:induction false} TrailingZeros(s: string, n: nat)
    ensures Eval(s + seq(n, _ => '0'), 10) == Eval(s, 10) * Pow(10, n)
  {
    EvalAppend(s, seq(n, _ => '0'), 10);
    EvalZeros(n, "", 10);
    assert seq(n, _ => '0') + "" == seq(n, _ => '0');
  }

  lemma ZerosNumeral(n: nat)
    ensures IsNumeral(seq(n, _ => '0'), 10)
  {}

  lemma NumeralParts(s: string, k: nat)
    requires IsNumeral(s, 10) && k <= |s|
    ensures IsNumeral(s[..k], 10) && IsNumeral(s[k..], 10) && s[..k] + s[k..] == s
  {}

  lemma NumeralJoin(s: string, t: string)
    requires IsNumeral(s, 10) && IsNumeral(t, 10)
    ensures IsNumeral(s + t, 10)
  {}

  /** The point among the digits. */
  lemma PointInside(digits: string, x: int)
    requires IsNumeral(digits, 10) && x < 0 < |digits| + x && digits[0] != '0'
    ensures var p := Parts(digits[..|digits| + x], digits[|digits| + x..], None, 0);
            WellWritten(p) && Meaning(p) == Decimal(Eval(digits, 10), x)
  {
    hide Eval, Decimal;
    NumeralParts(digits, |digits| + x);
  }

  /** Zeros between the point and the digits. */
  lemma PointBefore(digits: string, x: int)
    requires IsNumeral(digits, 10) && |digits| + x <= 0 && |digits| > 0
    ensures var p := Parts("0", seq(-(|digits| + x), _ => '0') + digits, None, 0);
            WellWritten(p) && Meaning(p) == Decimal(Eval(digits, 10), x)
  {
    hide Decimal, Eval, IsNumeral;
    var n := -(|digits| + x);
    var z := seq(n, _ => '0');
    ZerosNumeral(n);
    ZerosNumeral(1);
    assert seq(1, _ => '0') == "0";
    NumeralJoin(z, digits);
    OneZeroMore(n, digits);
    EvalZeros(n + 1, digits, 10);
  }

  lemma OneZeroMore(n: nat, s: string)
    ensures "0" + (seq(n, _ => '0') + s) == seq(n + 1, _ => '0') + s
  {}

  /** Zeros behind the digits, and the point behind those. */
  lemma PointBehind(digits: string, x: nat)
    requires IsNumeral(digits, 10) && |digits| > 0 && digits[0] != '0'
    ensures var p := Parts(digits + seq(x, _ => '0'), "0", None, 0);
            WellWritten(p) && Meaning(p) == Decimal(Eval(digits, 10), x)
  {
    hide Decimal, Eval, Pow, IsNumeral;
    var zeros := seq(x, _ => '0');
    ZerosNumeral(x);
    ZerosNumeral(1);
    assert seq(1, _ => '0') == "0";
    NumeralJoin(digits, zeros);
    assert digits + zeros + "0" == digits + seq(x + 1, _ => '0');
    TrailingZeros(digits, x + 1);
    TenfoldDecimal(Eval(digits, 10), x, x + 1);
    assert x - (x + 1) == 0 - |"0"|;
  }

  /** One digit before the point, and an exponent. */
  lemma Scientific(digits: string, x: int, t: string, e: int)
    requires IsNumeral(digits, 10) && |digits| > 1 && digits[0] != '0'
    requires e == x + |digits| - 1 && IsInteger(t, e)
    ensures var p := Parts(digits[..1], digits[1..], Some(t), e);
            WellWritten(p) && Meaning(p) == Decimal(Eval(digits, 10), x)
  {
    hide Eval, Decimal, IsInteger;
    NumeralParts(digits, 1);
    assert e - |digits[1..]| == x;
  }

  lemma ScientificOne(digits: string, x: int, t: string)
    requires IsNumeral(digits, 10) && |digits| == 1 && digits[0] != '0' && IsInteger(t, x)
    ensures var p := Parts(digits, "0", Some(t), x);
            WellWritten(p) && Meaning(p) == Decimal(Eval(digits, 10), x)
  {
    hide Decimal, Eval, Pow, IsInteger;
    ZerosNumeral(1);
    assert seq(1, _ => '0') == "0";
    TrailingZeros(digits, 1);
    TenfoldDecimal(Eval(digits, 10), x, 1);
  }

  // ---- the layout in place ----

  /** An exponent is written for numbers from 2^53 on, for many zeros behind the digits, and
      for more than three zeros in front of them. */
  predicate NeedsExponent(len: nat, x: int, force: bool) {
    force || x > 2 || (x < 0 && len + x < -3)
  }

  lemma SliceWritten(buf: seq<char>, at: nat, mid: nat, end: nat, p: Parts)
    requires at <= mid < end <= |buf|
    requires buf[at..mid] == p.whole && buf[mid] == '.' && buf[mid + 1..end] == p.frac && p.exp.None?
    ensures buf[at..end] == Written(p)
  {
    assert buf[at..end] == buf[at..mid] + [buf[mid]] + buf[mid + 1..end];
  }

  /** The point goes between the digits. */
  method LayInside(buf: array<char>, at: nat, len: nat, x: int) returns (end: nat)
    requires x < 0 < len + x && at + len + 1 <= buf.Length
    modifies buf
    ensures end == at + len + 1 && forall i :: 0 <= i < at ==> buf[i] == old(buf[i])
    ensures var digits := old(buf[at..at + len]);
            buf[at..end] == Written(Parts(digits[..len + x], digits[len + x..], None, 0))
  {
    ghost var digits := buf[at..at + len];
    var mid := at + len + x;
    MoveUp(buf, mid, at + len, 1);
    buf[mid] := '.';
    end := at + len + 1;
    assert buf[at..mid] == digits[..len + x] && buf[mid + 1..end] == digits[len + x..];
    SliceWritten(buf[..], at, mid, end, Parts(digits[..len + x], digits[len + x..], None, 0));
  }

  /** The digits move up for a zero, the point and more zeros. */
  method LayBefore(buf: array<char>, at: nat, len: nat, zeros: nat) returns (end: nat)
    requires at + len + zeros + 2 <= buf.Length
    modifies buf
    ensures end == at + len + zeros + 2 && forall i :: 0 <= i < at ==> buf[i] == old(buf[i])
    ensures buf[at..end] == Written(Parts("0", seq(zeros, _ => '0') + old(buf[at..at + len]), None, 0))
  {
    ghost var digits := buf[at..at + len];
    MoveUp(buf, at, at + len, 2 + zeros);
    assert buf[at + 2 + zeros..at + len + zeros + 2] == digits;
    buf[at] := '0';
    buf[at + 1] := '.';
    Fill(buf, at + 2, at + 2 + zeros, '0');
    end := at + len + zeros + 2;
    LaidBefore(buf[..], at, zeros, end, digits);
  }

  lemma LaidBefore(s: seq<char>, at: nat, zeros: nat, end: nat, digits: string)
    requires at + 2 + zeros + |digits| == end <= |s| && s[at] == '0' && s[at + 1] == '.'
    requires (forall i :: at + 2 <= i < at + 2 + zeros ==> s[i] == '0') && s[at + 2 + zeros..end] == digits
    ensures s[at..end] == Written(Parts("0", seq(zeros, _ => '0') + digits, None, 0))
  {
    assert s[at + 2..at + 2 + zeros] == seq(zeros, _ => '0');
    assert s[at + 2..end] == s[at + 2..at + 2 + zeros] + s[at + 2 + zeros..end];
    SliceWritten(s, at, at + 1, end, Parts("0", seq(zeros, _ => '0') + digits, None, 0));
  }

  /** Zeros, the point and one more zero behind the digits. */
  method LayBehind(buf: array<char>, at: nat, len: nat, zeros: nat) returns (end: nat)
    requires at + len + zeros + 2 <= buf.Length
    modifies buf
    ensures end == at + len + zeros + 2 && forall i :: 0 <= i < at ==> buf[i] == old(buf[i])
    ensures buf[at..end] == Written(Parts(old(buf[at..at + len]) + seq(zeros, _ => '0'), "0", None, 0))
  {
    ghost var digits := buf[at..at + len];
    var mid := at + len + zeros;
    Fill(buf, at + len, mid, '0');
    buf[mid] := '.';
    buf[mid + 1] := '0';
    end := mid + 2;
    assert buf[at..at + len] == digits && buf[at + len..mid] == seq(zeros, _ => '0');
    assert buf[at..mid] == buf[at..at + len] + buf[at + len..mid];
    SliceWritten(buf[..], at, mid, end, Parts(digits + seq(zeros, _ => '0'), "0", None, 0));
  }

  /** Digits behind the first, at least one. */
  function Behind(digits: string): string {
    if |digits| > 1 then digits[1..] else "0"
  }

  /** The point behind the first digit. */
  method PointAfterFirst(buf: array<char>, at: nat, len: nat) returns (n: nat)
    requires 0 < len && at + len + 2 <= buf.Length
    modifies buf
    ensures n == (if len > 1 then len + 1 else 3) && forall i :: 0 <= i < at ==> buf[i] == old(buf[i])
    ensures buf[at..at + n] == old(buf[at..at + len])[..1] + "." + Behind(old(buf[at..at + len]))
  {
    ghost var digits := buf[at..at + len];
    if len > 1 {
      MoveUp(buf, at + 1, at + len, 1);
      buf[at + 1] := '.';
      n := len + 1;
      assert buf[at + 2..at + n] == digits[1..];
    } else {
      buf[at + 1] := '.';
      buf[at + 2] := '0';
      n := 3;
    }
    assert buf[at..at + n] == [buf[at]] + [buf[at + 1]] + buf[at + 2..at + n];
  }

  method AppendExponent(buf: array<char>, at: nat, n: nat, e: int) returns (end: nat, ghost t: string)
    requires at + n + 12 <= buf.Length && Abs(e) < 10000000000
    modifies buf
    ensures at + n <= end <= at + n + 12 && forall i :: 0 <= i < at ==> buf[i] == old(buf[i])
    ensures buf[at..end] == old(buf[at..at + n]) + ("e" + t) && IsInteger(t, e)
  {
    hide IsInteger;
    ghost var front := buf[at..at + n];
    buf[at + n] := 'e';
    var m := WriteExponent(e, buf, at + n + 1);
    end := at + n + 1 + m;
    t := buf[at + n + 1..end];
    assert buf[at..at + n] == front;
    assert buf[at..end] == buf[at..at + n] + ([buf[at + n]] + t);
  }

  /** The point behind the first digit, and the exponent. */
  method LayScientific(buf: array<char>, at: nat, len: nat, x: int) returns (end: nat, ghost p: Parts)
    requires 0 < len && at + len + 14 <= buf.Length && Abs(x) + len < 10000000000
    requires IsNumeral(buf[at..at + len], 10) && buf[at] != '0'
    modifies buf
    ensures at <= end <= at + len + 14 && forall i :: 0 <= i < at ==> buf[i] == old(buf[i])
    ensures buf[at..end] == Written(p) && WellWritten(p) && p.exp.Some? && EndsWith(p, old(buf[at + len - 1]))
    ensures Meaning(p) == old(Decimal(Eval(buf[at..at + len], 10), x))
  {
    hide WellWritten, Meaning, IsNumeral, IsInteger, Eval, Decimal, Behind;
    ghost var digits := buf[at..at + len];
    var n := PointAfterFirst(buf, at, len);
    var e := if len > 1 then x + n - 2 else x;
    ghost var t;
    end, t := AppendExponent(buf, at, n, e);
    p := Parts(digits[..1], Behind(digits), Some(t), e);
    ScientificParts(digits, x, t, e);
    assert digits[len - 1] == old(buf[at + len - 1]);
    BehindEnds(digits, t, e);
  }

  lemma BehindEnds(digits: string, t: string, e: int)
    requires |digits| > 0
    ensures EndsWith(Parts(digits[..1], Behind(digits), Some(t), e), digits[|digits| - 1])
  {}

  lemma ScientificParts(digits: string, x: int, t: string, e: int)
    requires IsNumeral(digits, 10) && |digits| > 0 && digits[0] != '0'
    requires e == x + |digits| - 1 && IsInteger(t, e)
    ensures var p := Parts(digits[..1], Behind(digits), Some(t), e);
            WellWritten(p) && Meaning(p) == Decimal(Eval(digits, 10), x)
  {
    hide WellWritten, Meaning, IsNumeral, IsInteger, Eval, Decimal;
    if |digits| > 1 {
      Scientific(digits, x, t, e);
    } else {
      assert digits[..1] == digits;
      ScientificOne(digits, x, t);
    }
  }

  /** The layout of dtoa_grisu3 behind the sign: the text means the digits' number, whichever
      form it takes. */
  method Lay(buf: array<char>, at: nat, len: nat, x: int, force: bool) returns (end: nat, ghost p: Parts)
    requires 0 < len && at + len + 14 <= buf.Length && Abs(x) + len < 10000000000
    requires IsNumeral(buf[at..at + len], 10) && buf[at] != '0'
    modifies buf
    ensures at <= end <= at + len + 14 && forall i :: 0 <= i < at ==> buf[i] == old(buf[i])
    ensures buf[at..end] == Written(p) && WellWritten(p) && (p.exp.Some? <==> NeedsExponent(len, x, force))
    ensures Meaning(p) == old(Decimal(Eval(buf[at..at + len], 10), x))
    ensures EndsWith(p, old(buf[at + len - 1]))
  {
    hide WellWritten, Meaning, IsNumeral, Eval, Decimal, Written;
    ghost var digits := buf[at..at + len];
    assert digits[len - 1] == buf[at + len - 1];
    if x < 0 && len + x > 0 && !force {
      PointInside(digits, x);
      end := LayInside(buf, at, len, x);
      p := Parts(digits[..len + x], digits[len + x..], None, 0);
    } else if x < 0 && len + x >= -3 && !force {
      PointBefore(digits, x);
      end := LayBefore(buf, at, len, -(len + x));
      p := Parts("0", seq(-(len + x), _ => '0') + digits, None, 0);
    } else if x < 0 || x > 2 || force {
      end, p := LayScientific(buf, at, len, x);
    } else {
      PointBehind(digits, x);
      end := LayBehind(buf, at, len, x);
      p := Parts(digits + seq(x, _ => '0'), "0", None, 0);
    }
  }
}
