/** The text of a float: Grisu3 where it succeeds, and otherwise seventeen digits from the C
    library, brought into Erlang's form. */
module FloatPrint {
  import opened Prelude
  import opened Digits
  import opened IntnText
  import opened CachedPowers
  import opened Grisu
  import opened Grisu3
  import opened FloatText

  // ---- text of the C library ----

  /** What snprintf writes for a positive double with %g or %e: digits, perhaps a point and
      more digits, perhaps an exponent with its sign. */
  datatype CText = CText(whole: string, frac: string, exp: Option<CExp>)

  datatype CExp = CExp(letter: char, sign: char, digits: string)

  function Front(c: CText): string { c.whole + if c.frac == "" then "" else "." + c.frac }

  function Printed(c: CText): string {
    Front(c) + if c.exp.Some? then [c.exp.value.letter, c.exp.value.sign] + c.exp.value.digits else ""
  }

  function ExponentOf(c: CText): int {
    if c.exp.None? then 0
    else if c.exp.value.sign == '-' then -Eval(c.exp.value.digits, 10) else Eval(c.exp.value.digits, 10)
  }

  ghost predicate IsC(c: CText) {
    && 1 <= |c.whole| && IsNumeral(c.whole, 10) && IsNumeral(c.frac, 10) && (c.whole[0] != '0' || |c.whole| == 1)
    && (c.exp.Some? ==>
          && |c.whole| == 1 && c.whole[0] != '0' && c.exp.value.letter in {'e', 'E'} && c.exp.value.sign in {'+', '-'}
          && 1 <= |c.exp.value.digits| && IsNumeral(c.exp.value.digits, 10)
          && (c.exp.value.sign == '-' ==> Eval(c.exp.value.digits, 10) > 0))
  }

  function CMeaning(c: CText): real { Decimal(Eval(c.whole + c.frac, 10), ExponentOf(c) - |c.frac|) }

  /** Leading zeros dropped, but not the last digit. */
  function Stripped(s: string): string {
    if |s| > 1 && s[0] == '0' then Stripped(s[1..]) else s
  }

  lemma {:induction false} StrippedIs(s: string)
    requires |s| > 0 && IsNumeral(s, 10)
    ensures var t := Stripped(s);
            |t| > 0 && IsNumeral(t, 10) && Eval(t, 10) == Eval(s, 10) && (t[0] != '0' || |t| == 1)
  {
    if |s| > 1 && s[0] == '0' {
      StrippedIs(s[1..]);
      assert s == seq(1, _ => '0') + s[1..];
      EvalZeros(1, s[1..], 10);
    }
  }

  /** The same in Erlang's form. */
  function Fixed(c: CText): Parts {
    Parts(c.whole, if c.frac == "" then "0" else c.frac,
          if c.exp.None? then None
          else Some((if c.exp.value.sign == '-' then "-" else "") + Stripped(c.exp.value.digits)),
          ExponentOf(c))
  }

  lemma FixedOk(c: CText)
    requires IsC(c)
    ensures WellWritten(Fixed(c)) && Meaning(Fixed(c)) == CMeaning(c)
  {
    FixedMeaning(c);
    hide Meaning, CMeaning, Eval, Decimal;
    if c.exp.Some? { FixedExponent(c.exp.value); }
    ZerosNumeral(1);
    assert seq(1, _ => '0') == "0";
  }

  lemma FixedExponent(x: CExp)
    requires x.sign in {'+', '-'} && |x.digits| > 0 && IsNumeral(x.digits, 10)
    requires x.sign == '-' ==> Eval(x.digits, 10) > 0
    ensures IsInteger((if x.sign == '-' then "-" else "") + Stripped(x.digits),
                      if x.sign == '-' then -Eval(x.digits, 10) else Eval(x.digits, 10))
  {
    StrippedIs(x.digits);
    NotNegative(x.digits);
    var t := Stripped(x.digits);
    if x.sign == '-' {
      assert ("-" + t)[1..] == t;
      OneDigitZero(t);
    } else {
      assert "" + t == t;
    }
  }

  lemma {:induction false} NotNegative(s: string)
    requires IsNumeral(s, 10)
    ensures Eval(s, 10) >= 0
  {
    if |s| > 0 { NotNegative(s[..|s| - 1]); }
  }

  lemma OneDigitZero(t: string)
    requires |t| > 0 && Eval(t, 10) > 0 && (t[0] != '0' || |t| == 1)
    ensures t[0] != '0'
  {
    if |t| == 1 { assert t[..0] == "" && Eval(t, 10) == DigitValue(t[0]); }
  }

  /** A zero behind the point does not change the number. */
  lemma FixedMeaning(c: CText)
    ensures Meaning(Fixed(c)) == CMeaning(c)
  {
    hide Eval, Decimal, Pow, ExponentOf, Stripped;
    if c.frac == "" {
      assert c.whole + "" == c.whole;
      assert seq(1, _ => '0') == "0";
      TrailingZeros(c.whole, 1);
      TenfoldDecimal(Eval(c.whole, 10), ExponentOf(c), 1);
    }
  }

  // ---- fixing the text in place ----

  /** lo..hi moved down by so many places. */
  method MoveDown(buf: array<char>, lo: nat, hi: nat, down: nat)
    requires down <= lo <= hi <= buf.Length
    modifies buf
    ensures buf[lo - down..hi - down] == old(buf[lo..hi])
    ensures forall i :: 0 <= i < lo - down ==> buf[i] == old(buf[i])
  {
    for i := lo to hi
      invariant forall x :: 0 <= x < lo - down ==> buf[x] == old(buf[x])
      invariant forall x :: lo - down <= x < i - down ==> buf[x] == old(buf[x + down])
      invariant forall x :: i <= x < hi ==> buf[x] == old(buf[x])
    {
      buf[i - down] := buf[i];
    }
  }

  /** Place of the first of two characters, or the end. */
  method FindEither(buf: array<char>, at: nat, end: nat, c: char, d: char) returns (i: nat)
    requires at <= end <= buf.Length
    ensures at <= i <= end && c !in buf[at..i] && d !in buf[at..i]
    ensures i < end ==> buf[i] == c || buf[i] == d
  {
    i := at;
    while i < end && buf[i] != c && buf[i] != d
      invariant at <= i <= end && c !in buf[at..i] && d !in buf[at..i]
    {
      assert buf[at..i + 1] == buf[at..i] + [buf[i]];
      i := i + 1;
    }
  }

  /** Point and zero before the exponent, or at the end, unless there is a point. */
  method AddPoint(buf: array<char>, at: nat, mid: nat, end: nat) returns (more: nat)
    requires at <= mid <= end && end + 2 <= buf.Length
    modifies buf
    ensures more == if '.' in old(buf[at..mid]) then 0 else 2
    ensures buf[at..mid + more] == old(buf[at..mid]) + if more == 0 then "" else ".0"
    ensures buf[mid + more..end + more] == old(buf[mid..end])
    ensures forall i :: 0 <= i < at ==> buf[i] == old(buf[i])
  {
    var point := FindEither(buf, at, mid, '.', '.');
    more := 0;
    if point < mid {
      assert buf[at..mid][point - at] == '.';
      return;
    }
    InsertPoint(buf, at, mid, end);
    more := 2;
  }

  method InsertPoint(buf: array<char>, at: nat, mid: nat, end: nat)
    requires at <= mid <= end && end + 2 <= buf.Length
    modifies buf
    ensures buf[at..mid + 2] == old(buf[at..mid]) + ".0" && buf[mid + 2..end + 2] == old(buf[mid..end])
    ensures forall i :: 0 <= i < at ==> buf[i] == old(buf[i])
  {
    ghost var front, tail := buf[at..mid], buf[mid..end];
    MoveUp(buf, mid, end, 2);
    assert buf[at..mid] == front;
    buf[mid] := '.';
    buf[mid + 1] := '0';
    assert buf[mid + 2..end + 2] == tail;
    assert buf[at..mid + 2] == buf[at..mid] + [buf[mid], buf[mid + 1]];
  }

  /** Leading zeros of the exponent go. */
  method StripZeros(buf: array<char>, s: nat, end: nat) returns (end': nat)
    requires s < end <= buf.Length
    modifies buf
    ensures s < end' <= end && buf[s..end'] == Stripped(old(buf[s..end]))
    ensures forall i :: 0 <= i < s ==> buf[i] == old(buf[i])
  {
    var f := s;
    while buf[f] == '0' && f + 1 < end
      invariant s <= f < end && Stripped(buf[f..end]) == Stripped(buf[s..end])
    {
      assert buf[f..end][1..] == buf[f + 1..end];
      f := f + 1;
    }
    end' := end - (f - s);
    if f > s { MoveDown(buf, f, end, f - s); }
  }

  /** A plus sign behind the letter goes; s is where the digits begin. */
  method DropPlus(buf: array<char>, mid: nat, end: nat) returns (s: nat, end': nat)
    requires mid + 2 < end <= buf.Length && buf[mid + 1] in {'+', '-'} && buf[mid + 2] != '-'
    modifies buf
    ensures mid < s < end' <= end && forall i :: 0 <= i <= mid ==> buf[i] == old(buf[i])
    ensures buf[mid + 1..s] == if old(buf[mid + 1]) == '-' then "-" else ""
    ensures buf[s..end'] == old(buf[mid + 2..end])
  {
    end' := end;
    if buf[mid + 1] == '+' {
      MoveDown(buf, mid + 2, end, 1);
      end' := end - 1;
      assert buf[mid + 1] == buf[mid + 1..end'][0];
    }
    s := if buf[mid + 1] == '-' then mid + 2 else mid + 1;
  }

  /** No plus sign and no leading zeros behind the letter. */
  method TrimExponent(buf: array<char>, mid: nat, end: nat) returns (end': nat)
    requires mid + 2 < end <= buf.Length && buf[mid] == 'e' && buf[mid + 1] in {'+', '-'} && buf[mid + 2] != '-'
    modifies buf
    ensures mid < end' <= end && forall i :: 0 <= i < mid ==> buf[i] == old(buf[i])
    ensures buf[mid..end'] ==
            "e" + (if old(buf[mid + 1]) == '-' then "-" else "") + Stripped(old(buf[mid + 2..end]))
  {
    hide Stripped;
    var s;
    s, end' := DropPlus(buf, mid, end);
    ghost var sign := buf[mid + 1..s];
    end' := StripZeros(buf, s, end');
    assert buf[mid + 1..s] == sign;
    assert buf[mid..end'] == [buf[mid]] + buf[mid + 1..s] + buf[s..end'];
  }

  lemma NumeralChars(s: string)
    requires IsNumeral(s, 10)
    ensures '.' !in s && 'e' !in s && 'E' !in s && '-' !in s
  {}

  /** Where the exponent of a text begins. */
  lemma FrontEnds(c: CText, text: string, m: nat)
    requires IsC(c) && text == Printed(c) && m <= |text| && 'e' !in text[..m] && 'E' !in text[..m]
    requires m < |text| ==> text[m] == 'e' || text[m] == 'E'
    ensures m == |Front(c)|
  {
    NumeralChars(c.whole);
    NumeralChars(c.frac);
    var front := Front(c);
    assert forall i :: 0 <= i < |front| ==> text[i] == front[i] && front[i] in front;
    assert forall i :: 0 <= i < m ==> text[i] == text[..m][i];
    assert |text| > |front| ==> text[|front|] == c.exp.value.letter;
  }

  lemma FrontPoint(c: CText)
    requires IsC(c)
    ensures '.' in Front(c) <==> c.frac != ""
    ensures Front(c) + (if c.frac == "" then ".0" else "") == Fixed(c).whole + "." + Fixed(c).frac
  {
    NumeralChars(c.whole);
    if c.frac != "" {
      assert Front(c)[|c.whole|] == '.';
      assert Front(c) + "" == Front(c) && Front(c) == c.whole + "." + c.frac;
    } else {
      assert Front(c) == c.whole && c.whole + ".0" == c.whole + "." + "0";
    }
  }

  /** What is written for an exponent. */
  function TailText(tail: string): string {
    if |tail| < 3 then "" else "e" + (if tail[1] == '-' then "-" else "") + Stripped(tail[2..])
  }

  /** What is written for a front and the tail behind it. */
  function Joined(front: string, tail: string): string {
    front + (if '.' in front then "" else ".0") + TailText(tail)
  }

  /** Point and exponent of a text that is cut at mid. */
  method FixParts(buf: array<char>, at: nat, mid0: nat, end: nat) returns (end': nat)
    requires at <= mid0 <= end && end + 2 <= buf.Length
    requires mid0 < end ==> mid0 + 2 < end && buf[mid0 + 1] in {'+', '-'} && buf[mid0 + 2] != '-'
    modifies buf
    ensures at <= end' <= end + 2 && buf[at..end'] == Joined(old(buf[at..mid0]), old(buf[mid0..end]))
    ensures forall i :: 0 <= i < at ==> buf[i] == old(buf[i])
  {
    hide TailText, Joined;
    ghost var front, tail := buf[at..mid0], buf[mid0..end];
    SetLetter(buf, at, mid0, end);
    ghost var tail' := buf[mid0..end];
    var more := AddPoint(buf, at, mid0, end);
    ghost var front' := buf[at..mid0 + more];
    end' := FixTail(buf, at, mid0 + more, end + more, tail');
    JoinedIs(front, tail, front', buf[mid0 + more..end']);
  }

  /** A small letter before the exponent. */
  method SetLetter(buf: array<char>, at: nat, mid: nat, end: nat)
    requires at <= mid <= end <= buf.Length && (mid < end ==> mid + 2 < end)
    modifies buf
    ensures buf[at..mid] == old(buf[at..mid]) && forall i :: 0 <= i < at ==> buf[i] == old(buf[i])
    ensures mid < end ==> buf[mid] == 'e' && buf[mid + 1] == old(buf[mid + 1]) && buf[mid + 2] == old(buf[mid + 2])
    ensures TailText(buf[mid..end]) == TailText(old(buf[mid..end]))
  {
    hide Stripped;
    if mid < end {
      ghost var tail := buf[mid..end];
      buf[mid] := 'e';
      assert buf[mid..end][2..] == tail[2..];
    }
  }

  lemma JoinedIs(front: string, tail: string, front': string, tail': string)
    requires front' == front + if '.' in front then "" else ".0"
    requires tail' == TailText(tail)
    ensures Joined(front, tail) == front' + tail'
  {
    hide TailText;
  }

  /** The exponent, of which the letter is set. */
  method FixTail(buf: array<char>, at: nat, mid: nat, end: nat, ghost tail: string) returns (end': nat)
    requires at <= mid <= end <= buf.Length && buf[mid..end] == tail
    requires mid < end ==> mid + 2 < end && tail[0] == 'e' && tail[1] in {'+', '-'} && tail[2] != '-'
    modifies buf
    ensures mid <= end' <= end && forall i :: 0 <= i < at ==> buf[i] == old(buf[i])
    ensures buf[mid..end'] == TailText(tail)
    ensures buf[at..end'] == old(buf[at..mid]) + buf[mid..end']
  {
    hide Stripped;
    ghost var front := buf[at..mid];
    end' := end;
    if mid < end {
      TailChars(buf[..], mid, end, tail);
      end' := TrimExponent(buf, mid, end);
      assert buf[at..mid] == front;
    }
    assert buf[at..end'] == buf[at..mid] + buf[mid..end'];
  }

  lemma TailChars(s: string, mid: nat, end: nat, tail: string)
    requires mid + 2 < end <= |s| && s[mid..end] == tail
    ensures s[mid] == tail[0] && s[mid + 1] == tail[1] && s[mid + 2] == tail[2] && s[mid + 2..end] == tail[2..]
  {}

  /** fixup_g_format: the text in Erlang's form, meaning the same number. */
  method FixupG(buf: array<char>, at: nat, end: nat, ghost c: CText) returns (end': nat)
    requires at <= end && end + 2 <= buf.Length && IsC(c) && buf[at..end] == Printed(c)
    modifies buf
    ensures at <= end' <= end + 2 && buf[at..end'] == Written(Fixed(c))
    ensures forall i :: 0 <= i < at ==> buf[i] == old(buf[i])
  {
    hide Front, Printed, Fixed, Stripped, IsC, Joined, Written;
    var mid := FindEither(buf, at, end, 'e', 'E');
    ghost var text, front, tail := buf[at..end], buf[at..mid], buf[mid..end];
    assert text == front + tail && text[..mid - at] == front;
    assert mid < end ==> text[mid - at] == buf[mid];
    FrontEnds(c, text, mid - at);
    PrintedParts(c, text, front, tail);
    assert mid < end ==> tail[1] == buf[mid + 1] && tail[2] == buf[mid + 2];
    JoinedIsFixed(c, front, tail);
    end' := FixParts(buf, at, mid, end);
  }

  lemma JoinedIsFixed(c: CText, front: string, tail: string)
    requires IsC(c) && front == Front(c)
    requires if c.exp.None? then tail == ""
             else |tail| > 2 && tail[1] == c.exp.value.sign && tail[2..] == c.exp.value.digits
    ensures Joined(front, tail) == Written(Fixed(c))
  {
    FrontPoint(c);
    FixedWritten(c);
    hide Stripped, Front, Fixed, Written, IsC;
  }

  /** A text cut at its exponent. */
  lemma PrintedParts(c: CText, text: string, front: string, tail: string)
    requires IsC(c) && text == Printed(c) && |front| == |Front(c)| && text == front + tail
    ensures front == Front(c)
    ensures if c.exp.None? then tail == ""
            else |tail| > 2 && tail[1] == c.exp.value.sign && tail[2..] == c.exp.value.digits
                 && c.exp.value.sign in {'+', '-'} && tail[2] != '-'
  {
    assert front == text[..|front|] == Front(c) && tail == text[|front|..];
    if c.exp.Some? {
      NumeralChars(c.exp.value.digits);
      assert tail == [c.exp.value.letter, c.exp.value.sign] + c.exp.value.digits;
      assert tail[2] == c.exp.value.digits[0];
    }
  }

  lemma FixedWritten(c: CText)
    ensures Written(Fixed(c)) == Fixed(c).whole + "." + Fixed(c).frac +
            if c.exp.None? then ""
            else "e" + (if c.exp.value.sign == '-' then "-" else "") + Stripped(c.exp.value.digits)
  {
    if c.exp.Some? {
      var sign, digits := if c.exp.value.sign == '-' then "-" else "", Stripped(c.exp.value.digits);
      assert "e" + (sign + digits) == "e" + sign + digits;
    }
  }

  // ---- the whole ----

  /** Bits of the size of a double. */
  function Size(bits: nat): nat {
    if bits >= 0x8000_0000_0000_0000 then bits - 0x8000_0000_0000_0000 else bits
  }

  function SignText(bits: nat): string { if bits >= 0x8000_0000_0000_0000 then "-" else "" }

  /** A text for a double: its sign, and behind it a decimal that stands for zero or reads back
      as the size. */
  ghost predicate WritesDouble(text: string, p: Parts, bits: nat, d: int, x: int) {
    && text == SignText(bits) + Written(p) && WellWritten(p) && Meaning(p) == Decimal(d, x)
    && if Size(bits) == 0 then d == 0 else Lower(Size(bits)) < Decimal(d, x) < Upper(Size(bits))
  }

  /** The formats %.17g and %.16e. */
  datatype Format = General17 | Exponent16

  /** What the C library is asked for: seventeen digits of the size, correctly rounded. */
  datatype Library = Library(text: CText, d: int, x: int)

  /** As the C standard has it, %e always writes an exponent, and %.17g for numbers that are
      rounded to less than 10^-4, or to 10^17 or more. */
  ghost predicate Prints(lib: Library, f: Format, size: nat) {
    && IsC(lib.text) && |Printed(lib.text)| < 64 && CMeaning(lib.text) == Decimal(lib.d, lib.x)
    && Rounded17(size, lib.d, lib.x)
    && (lib.text.exp.Some? <==> f == Exponent16 || FarOut(Decimal(lib.d, lib.x)))
  }

  ghost predicate FarOut(v: real) { v < 0.0001 || v >= 100000000000000000.0 }

  /** Which texts have an exponent: numbers from 2^53 on; of the others, where grisu3 succeeds,
      those with three zeros or more behind the digits or smaller than 10^-4. */
  ghost predicate HasExponent(size: nat, short: bool, d: int, x: int) {
    || Double(size) >= 9007199254740992.0
    || if short then x > 2 || (x < 0 && Decimal(d, x) < 0.0001) else FarOut(Decimal(d, x))
  }

  /** The digits of the C library as they are; a zero behind the point if there were none. */
  ghost predicate SameDigits(p: Parts, c: CText) {
    p.whole == c.whole && p.frac == (if c.frac == "" then "0" else c.frac)
  }

  /** Nothing behind the point that could be left out. */
  ghost predicate NoneTooMany(p: Parts) { p.frac == "0" || (|p.frac| > 0 && p.frac[|p.frac| - 1] != '0') }

  /** Some number of the shortest length is sound, so that grisu3 succeeds. */
  ghost predicate Succeeds(t: Trace) { exists k :: Sound(t.low, t.w, t.high, t.s, k, t.kappa) }

  /** dtoa_grisu3 on a finite double: the text reads back as the double; where grisu3 succeeds
      it has the fewest digits for that and is nearest, and otherwise seventeen. Nothing is
      returned only if the C library fails. */
  method ShortText(bits: nat, round: real -> real, lib: Format -> Option<Library>, buf: array<char>)
    returns (end: Option<nat>, ghost p: Parts, ghost d: int, ghost x: int, ghost t: Trace)
    requires bits < 0x1_0000_0000_0000_0000 && Size(bits) < INFINITY && Rounds(round) && buf.Length == 256
    requires forall f :: lib(f).Some? && Size(bits) != 0 ==> Prints(lib(f).value, f, Size(bits))
    modifies buf
    ensures end.Some? ==> end.value <= 66 && WritesDouble(buf[..end.value], p, bits, d, x)
    ensures Size(bits) != 0 ==> Traced(Size(bits), t)
    ensures end.Some? && Size(bits) != 0 ==>
              if Succeeds(t) then Shortest(Size(bits), d, x) && end.value <= 32 && NoneTooMany(p)
              else Rounded17(Size(bits), d, x) && exists f :: lib(f).Some? && SameDigits(p, lib(f).value.text)
    ensures end.Some? ==>
              if Size(bits) == 0 then p == Parts("0", "0", None, 0)
              else p.exp.Some? <==> HasExponent(Size(bits), Succeeds(t), d, x)
    ensures end.None? ==> Size(bits) != 0 && !Succeeds(t) && (lib(General17).None? || lib(Exponent16).None?)
  {
    hide WellWritten, Meaning, IsNumeral, Eval, Decimal, Written, Shortest, Rounds, Traced, Prints, Succeeds, Rounded17,
         HasExponent, NoneTooMany, SameDigits;
    d, x, p, t := 0, 0, Parts("0", "0", None, 0), Trace(0, 0, 0, 0, 0, 0, 0, 0, 0, 0, 0, 0);
    var at := 0;
    if bits >= 0x8000_0000_0000_0000 {
      buf[0] := '-';
      at := 1;
    }
    var size := Size(bits);
    if size == 0 {
      buf[at], buf[at + 1], buf[at + 2] := '0', '.', '0';
      ZeroText();
      assert buf[..at + 3] == SignText(bits) + "0.0";
      return Some(at + 3), p, d, x, t;
    }
    end, p, d, x, t := NonzeroText(size, round, lib, buf, at);
    if end.Some? {
      assert buf[..end.value] == buf[..at] + buf[at..end.value];
      assert buf[..at] == SignText(bits);
    }
  }

  /** The same for a size that is not zero, behind the sign. */
  method NonzeroText(size: nat, round: real -> real, lib: Format -> Option<Library>, buf: array<char>, at: nat)
    returns (end: Option<nat>, ghost p: Parts, ghost d: int, ghost x: int, ghost t: Trace)
    requires 0 < size < INFINITY && Rounds(round) && buf.Length == 256 && at <= 1
    requires forall f :: lib(f).Some? ==> Prints(lib(f).value, f, size)
    modifies buf
    ensures forall i :: 0 <= i < at ==> buf[i] == old(buf[i])
    ensures end.Some? ==>
              && at <= end.value <= 66 && buf[at..end.value] == Written(p) && WellWritten(p)
              && Meaning(p) == Decimal(d, x) && Lower(size) < Decimal(d, x) < Upper(size)
    ensures Traced(size, t)
    ensures end.Some? ==>
              if Succeeds(t) then Shortest(size, d, x) && end.value <= 32 && NoneTooMany(p)
              else Rounded17(size, d, x) && exists f :: lib(f).Some? && SameDigits(p, lib(f).value.text)
    ensures end.Some? ==> (p.exp.Some? <==> HasExponent(size, Succeeds(t), d, x))
    ensures end.None? ==> !Succeeds(t) && (lib(General17).None? || lib(Exponent16).None?)
  {
    hide WellWritten, Meaning, IsNumeral, Eval, Decimal, Written, Shortest, Rounds, Traced, Sound, Printed, IsC,
         Rounded17, CMeaning, FarOut, Double;
    d, x, p := 0, 0, Parts("0", "0", None, 0);
    HasFraction(size);
    var ok, digits, dExp;
    ok, digits, dExp, t := ShortestDigits(size, round);
    var stop;
    if ok {
      d, x := Eval(digits, 10), dExp;
      PutText(buf, at, digits);
      PlaceOf(digits, dExp);
      assert buf[at] == buf[at..at + |digits|][0];
      assert buf[at + |digits| - 1] == buf[at..at + |digits|][|digits| - 1];
      stop, p := Lay(buf, at, |digits|, dExp, Double(size) >= 9007199254740992.0);
      ShortestInside(size, d, x);
      LastDigit(size, digits, dExp);
    } else {
      var f := if Double(size) >= 9007199254740992.0 then Exponent16 else General17;
      var got := lib(f);
      if got.None? { return None, p, d, x, t; }
      var text := Printed(got.value.text);
      PutText(buf, at, text);
      stop := FixupG(buf, at, at + |text|, got.value.text);
      p, d, x := Fixed(got.value.text), got.value.d, got.value.x;
      FixedOk(got.value.text);
      assert SameDigits(p, lib(f).value.text);
      SeventeenReadsBack(size, d, x);
    }
    end := Some(stop);
  }

  /** So many places before the point, by the number: digits without leading zeros. */
  lemma PlaceOf(digits: string, x: int)
    requires IsNumeral(digits, 10) && |digits| > 0 && digits[0] != '0'
    ensures |digits| + x < -3 <==> Decimal(Eval(digits, 10), x) < 0.0001
  {
    hide Eval, RPow, Decimal;
    TenToMinusFour();
    DecimalRange(digits, x);
    RPowOrder(|digits| + x, -4);
    RPowOrder(-4, |digits| - 1 + x);
  }

  lemma DecimalRange(digits: string, x: int)
    requires IsNumeral(digits, 10) && |digits| > 0 && digits[0] != '0'
    ensures RPow(10.0, |digits| - 1 + x) <= Decimal(Eval(digits, 10), x) < RPow(10.0, |digits| + x)
  {
    hide Eval, Pow, RPow;
    var n := |digits|;
    NumeralRange(digits);
    SamePow(10, n);
    SamePow(10, n - 1);
    RPowAdd(10.0, n, x);
    RPowAdd(10.0, n - 1, x);
    DecimalBetween(Eval(digits, 10), RPow(10.0, n - 1), RPow(10.0, n), RPow(10.0, x),
      RPow(10.0, n - 1 + x), Decimal(Eval(digits, 10), x), RPow(10.0, n + x));
  }

  /** A numeral without leading zeros. */
  lemma {:induction false} NumeralRange(s: string)
    requires IsNumeral(s, 10) && |s| > 0 && s[0] != '0'
    ensures Pow(10, |s| - 1) <= Eval(s, 10) < Pow(10, |s|)
  {
    var front := s[..|s| - 1];
    EvalSnoc(s);
    if |s| > 1 {
      NumeralRange(front);
      assert Pow(10, |s| - 1) == 10 * Pow(10, |s| - 2) && Pow(10, |s|) == 10 * Pow(10, |s| - 1);
    } else {
      assert front == "" && Pow(10, 0) == 1 && Pow(10, 1) == 10;
    }
  }

  lemma {:induction false} RPowOrder(m: int, n: int)
    ensures m <= n ==> RPow(10.0, m) <= RPow(10.0, n)
    decreases n - m
  {
    hide RPow;
    if m < n {
      RPowOrder(m, n - 1);
      RPowStep(10.0, n - 1);
    }
  }

  lemma DecimalBetween(d: int, lo: real, hi: real, r: real, below: real, dec: real, above: real)
    requires lo <= d as real < hi && r > 0.0
    requires below == lo * r && dec == d as real * r && above == hi * r
    ensures below <= dec < above
  {
    StrictRight(d as real, hi, r);
    StrictRight(d as real, lo, r);
  }

  lemma TenToMinusFour()
    ensures RPow(10.0, -4) == 0.0001
  {
    RPowStep(10.0, -4);
    RPowStep(10.0, -3);
    RPowStep(10.0, -2);
    RPowStep(10.0, -1);
    RPowZero(10.0);
  }

  /** The shortest digits do not end in a zero. */
  lemma LastDigit(size: nat, digits: string, x: int)
    requires |digits| > 0 && IsNumeral(digits, 10) && Shortest(size, Eval(digits, 10), x)
    ensures digits[|digits| - 1] != '0'
  {
    hide Eval, Double, AbsR, Lower, Upper, RPow;
    if digits[|digits| - 1] == '0' {
      var front := Eval(digits[..|digits| - 1], 10);
      EvalSnoc(digits);
      TenTimes(front, x);
    }
  }

  lemma EvalSnoc(s: string)
    requires |s| > 0
    ensures Eval(s, 10) == 10 * Eval(s[..|s| - 1], 10) + DigitValue(s[|s| - 1])
  {}

  lemma TenTimes(d: int, x: int)
    ensures Decimal(10 * d, x) == Decimal(d, x + 1)
  {
    RPowStep(10.0, x);
  }

  lemma ShortestInside(bits: nat, d: int, x: int)
    requires Shortest(bits, d, x)
    ensures Lower(bits) < Decimal(d, x) < Upper(bits)
  {}

  method PutText(buf: array<char>, at: nat, text: string)
    requires at + |text| <= buf.Length
    modifies buf
    ensures buf[at..at + |text|] == text && forall i :: 0 <= i < at ==> buf[i] == old(buf[i])
  {
    for i := 0 to |text|
      invariant forall k :: 0 <= k < buf.Length ==> buf[k] == if at <= k < at + i then text[k - at] else old(buf[k])
    {
      buf[at + i] := text[i];
    }
  }

  lemma ZeroText()
    ensures var p := Parts("0", "0", None, 0); Written(p) == "0.0" && WellWritten(p) && Meaning(p) == Decimal(0, 0)
  {
    hide RPow;
    assert Eval("00", 10) == 0 && "0" + "0" == "00";
  }

  lemma HasFraction(bits: nat)
    requires 0 < bits < 0x8000_0000_0000_0000
    ensures Fraction(bits) != 0
  {
    if bits % 0x10_0000_0000_0000 == 0 {
      assert bits / 0x10_0000_0000_0000 != 0;
    }
  }

  // ---- reading it back ----

  /** The number a double stands for. */
  function SignedDouble(bits: nat): real {
    if bits >= 0x8000_0000_0000_0000 then -Double(Size(bits)) else Double(Size(bits))
  }

  /** The number a text says: a minus in front negates it. */
  ghost predicate Says(text: string, p: Parts, v: real) {
    && WellWritten(p)
    && ((text == Written(p) && v == Meaning(p)) || (text == "-" + Written(p) && v == -Meaning(p)))
  }

  /** A text begins with a digit. */
  lemma BeginsWithDigit(p: Parts)
    requires WellWritten(p)
    ensures |Written(p)| > 0 && Written(p)[0] != '-'
  {
    assert Written(p)[0] == p.whole[0];
  }

  /** The minus of a text is the sign of its double, also for zero. */
  lemma MinusIsSign(text: string, p: Parts, bits: nat, d: int, x: int)
    requires WritesDouble(text, p, bits, d, x)
    ensures |text| > 0 && (text[0] == '-' <==> bits >= 0x8000_0000_0000_0000)
    ensures Says(text, p, if text[0] == '-' then -Meaning(p) else Meaning(p))
  {
    hide WellWritten, Written, Meaning, Decimal, Lower, Upper;
    BeginsWithDigit(p);
  }

  /** Reading a text back: no other number that a double stands for is as near to what it says. */
  lemma TextReadsBack(text: string, p: Parts, bits: nat, d: int, x: int, v: real, other: nat)
    requires WritesDouble(text, p, bits, d, x) && Size(bits) < INFINITY && Size(other) < INFINITY && Says(text, p, v)
    requires SignedDouble(other) != SignedDouble(bits)
    ensures AbsR(v - SignedDouble(bits)) < AbsR(v - SignedDouble(other))
  {
    hide Meaning, Written, WellWritten, Decimal, Double, AbsR, Lower, Upper;
    BeginsWithDigit(p);
    var m, a, b := Meaning(p), Double(Size(bits)), Double(Size(other));
    assert v == if bits >= 0x8000_0000_0000_0000 then -m else m;
    if Size(bits) == 0 {
      ZeroDouble();
      ZeroDecimal(x);
      AtZero(v, SignedDouble(other));
    } else {
      PositiveDouble(Size(bits));
      ReadsBack(Size(bits), 0, Decimal(d, x));
      ZeroDouble();
      if Size(other) != Size(bits) { ReadsBack(Size(bits), Size(other), Decimal(d, x)); }
      if Size(other) == 0 { ZeroDouble(); } else { PositiveDouble(Size(other)); }
      EitherSide(m, a, b, bits >= 0x8000_0000_0000_0000, other >= 0x8000_0000_0000_0000);
    }
  }

  lemma ZeroDouble()
    ensures Double(0) == 0.0
  {}

  lemma ZeroDecimal(x: int)
    ensures Decimal(0, x) == 0.0
  {}

  lemma PositiveDouble(size: nat)
    requires 0 < size < INFINITY
    ensures Double(size) > 0.0
  {
    HasFraction(size);
    hide RPow;
  }

  lemma AtZero(v: real, z: real)
    requires v == 0.0 && z != 0.0
    ensures AbsR(v - 0.0) < AbsR(v - z) && AbsR(v - -0.0) < AbsR(v - z)
  {}

  /** m is nearer to a than to zero and, unless they are equal, to b. */
  lemma EitherSide(m: real, a: real, b: real, minus: bool, other: bool)
    requires a > 0.0 && b >= 0.0 && AbsR(m - a) < AbsR(m - 0.0) && (a == b || AbsR(m - a) < AbsR(m - b))
    requires (if minus then -a else a) != (if other then -b else b)
    ensures var v := if minus then -m else m;
            AbsR(v - (if minus then -a else a)) < AbsR(v - (if other then -b else b))
  {}

  // ---- there is no other such text ----

  /** Numerals of one length and one value are one text. */
  lemma {:induction false} SameNumeral(s: string, t: string)
    requires IsNumeral(s, 10) && IsNumeral(t, 10) && |s| == |t| && Eval(s, 10) == Eval(t, 10)
    ensures s == t
  {
    hide Eval;
    if |s| > 0 {
      var k := |s| - 1;
      EvalSnoc(s);
      EvalSnoc(t);
      SameLast(Eval(s[..k], 10), Eval(t[..k], 10), s[k], t[k]);
      SameNumeral(s[..k], t[..k]);
      assert s == s[..k] + [s[k]] && t == t[..k] + [t[k]];
    }
  }

  lemma SameLast(x: int, y: int, c: char, d: char)
    requires DigitValue(c) < 10 && DigitValue(d) < 10 && 10 * x + DigitValue(c) == 10 * y + DigitValue(d)
    ensures x == y && c == d
  {
    assert 0 <= DigitValue(c) && 0 <= DigitValue(d);
  }

  /** No zeros in front, unless k digits or fewer would be left. */
  ghost predicate Leads(s: string, k: nat) { IsNumeral(s, 10) && |s| >= k && |s| > 0 && (s[0] != '0' || |s| == k) }

  lemma LeadsLength(s: string, t: string, k: nat)
    requires Leads(s, k) && Leads(t, k) && |s| < |t|
    ensures Eval(s, 10) < Eval(t, 10)
  {
    hide Eval, Pow;
    NumeralBelow(s);
    NumeralRange(t);
    PowMono(10, |s|, |t| - 1);
  }

  lemma {:induction false} NumeralBelow(s: string)
    requires IsNumeral(s, 10)
    ensures Eval(s, 10) < Pow(10, |s|)
  {
    if |s| > 0 {
      EvalSnoc(s);
      NumeralBelow(s[..|s| - 1]);
      assert Pow(10, |s|) == 10 * Pow(10, |s| - 1);
    } else {
      assert Pow(10, 0) == 1;
    }
  }

  lemma LeadsUnique(s: string, t: string, k: nat)
    requires Leads(s, k) && Leads(t, k) && Eval(s, 10) == Eval(t, 10)
    ensures s == t
  {
    hide Eval;
    if |s| < |t| { LeadsLength(s, t, k); }
    if |t| < |s| { LeadsLength(t, s, k); }
    SameNumeral(s, t);
  }

  /** One value with so many digits behind the point each: a longer one ends in zero. */
  lemma LongerEndsInZero(s: string, t: string, a: int, b: int)
    requires |t| > 0 && IsNumeral(t, 10) && a < b && Decimal(Eval(s, 10), -a) == Decimal(Eval(t, 10), -b)
    ensures t[|t| - 1] == '0'
  {
    hide Eval, Pow, Decimal;
    var n := b - a;
    TenfoldDecimal(Eval(s, 10), -a, n);
    assert -a - n == -b;
    SameDecimal(Eval(s, 10) * Pow(10, n), Eval(t, 10), -b);
    PowStep(n);
    MulAssoc(Eval(s, 10), 10, Pow(10, n - 1));
    EvalSnoc(t);
    LastIsZero(Eval(s, 10) * Pow(10, n - 1), Eval(t[..|t| - 1], 10), t[|t| - 1]);
  }

  lemma PowStep(n: nat)
    requires n > 0
    ensures Pow(10, n) == 10 * Pow(10, n - 1)
  {}

  lemma LastIsZero(m: int, f: int, c: char)
    requires 0 <= DigitValue(c) < 10 && 10 * m == 10 * f + DigitValue(c)
    ensures c == '0'
  {}

  lemma SameDecimal(d: int, e: int, x: int)
    requires Decimal(d, x) == Decimal(e, x)
    ensures d == e
  {
    hide RPow;
    var r := RPow(10.0, x);
    if d < e { StrictRight(d as real, e as real, r); }
    if e < d { StrictRight(e as real, d as real, r); }
  }

  /** Two texts of one number, with the point at one place. */
  lemma SameFront(p: Parts, q: Parts)
    requires WellWritten(p) && WellWritten(q) && NoneTooMany(p) && NoneTooMany(q)
    requires Decimal(Eval(p.whole + p.frac, 10), -|p.frac|) == Decimal(Eval(q.whole + q.frac, 10), -|q.frac|)
    ensures p.whole == q.whole && p.frac == q.frac
  {
    hide Eval, Decimal, IsInteger, IsNumeral;
    var s, t, a, b := p.whole + p.frac, q.whole + q.frac, |p.frac|, |q.frac|;
    NumeralJoin(p.whole, p.frac);
    NumeralJoin(q.whole, q.frac);
    assert s[|s| - 1] == p.frac[a - 1] && t[|t| - 1] == q.frac[b - 1];
    if a < b { LongerEndsInZero(s, t, a, b); }
    if b < a { LongerEndsInZero(t, s, b, a); }
    SameDecimal(Eval(s, 10), Eval(t, 10), -a);
    assert s[0] == p.whole[0] && t[0] == q.whole[0];
    LeadsUnique(s, t, a + 1);
    assert s[..|s| - a] == p.whole && t[..|t| - b] == q.whole && s[|s| - a..] == p.frac && t[|t| - b..] == q.frac;
  }

  /** The exponent of a number written with one digit before the point. */
  lemma SameExponent(p: Parts, q: Parts)
    requires WellWritten(p) && WellWritten(q) && p.exp.Some? && q.exp.Some? && Meaning(p) == Meaning(q)
    ensures p.e == q.e
  {
    hide Eval, Decimal, IsInteger, RPow;
    var s, t := p.whole + p.frac, q.whole + q.frac;
    DecimalRange(s, p.e - |p.frac|);
    DecimalRange(t, q.e - |q.frac|);
    assert |s| - 1 + (p.e - |p.frac|) == p.e && |t| - 1 + (q.e - |q.frac|) == q.e;
    RPowOrder(p.e + 1, q.e);
    RPowOrder(q.e + 1, p.e);
  }

  lemma SameInteger(s: string, t: string, e: int)
    requires IsInteger(s, e) && IsInteger(t, e)
    ensures s == t
  {
    if e < 0 {
      LeadsUnique(s[1..], t[1..], 1);
      assert s == [s[0]] + s[1..] && t == [t[0]] + t[1..];
    } else {
      LeadsUnique(s, t, 1);
    }
  }

  /** With or without an exponent, a number has one text that leaves out what it can. */
  lemma OnlyText(p: Parts, q: Parts)
    requires WellWritten(p) && WellWritten(q) && NoneTooMany(p) && NoneTooMany(q)
    requires Meaning(p) == Meaning(q) && (p.exp.Some? <==> q.exp.Some?)
    ensures Written(p) == Written(q)
  {
    hide Eval, Decimal, IsInteger, NoneTooMany, IsNumeral;
    if p.exp.Some? {
      SameExponent(p, q);
      SameInteger(p.exp.value, q.exp.value, p.e);
      Unscaled(Eval(p.whole + p.frac, 10), Eval(q.whole + q.frac, 10), |p.frac|, |q.frac|, p.e);
    }
    SameFront(p, q);
  }

  lemma Unscaled(d: int, f: int, a: int, b: int, e: int)
    requires Decimal(d, e - a) == Decimal(f, e - b)
    ensures Decimal(d, -a) == Decimal(f, -b)
  {
    hide RPow;
    var r := RPow(10.0, e);
    RPowAdd(10.0, e, -a);
    RPowAdd(10.0, e, -b);
    Regroup(d as real, r, RPow(10.0, -a));
    Regroup(f as real, r, RPow(10.0, -b));
    Cancel(r, Decimal(d, -a), Decimal(f, -b));
  }
}
