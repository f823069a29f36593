/** Integers in bit fields of binaries: written and read bit by bit at any offset, or
    byte by byte where the field is aligned. */
module BitString {
  import opened Prelude
  import opened Digits
  import opened Bits

  // ---- bits of a binary ----

  /** Bit pos of a binary, the most significant bit of each byte first. */
  function BitAt(s: seq<u8>, pos: nat): int
    requires pos < 8 * |s|
  {
    Bit(s[pos / 8], 7 - pos % 8)
  }

  /** The n bits from off on as a number. */
  function Field(s: seq<u8>, off: nat, n: nat): int
    requires off + n <= 8 * |s|
  {
    if n == 0 then 0 else 2 * Field(s, off, n - 1) + BitAt(s, off + n - 1)
  }

  function TwoTo(n: nat): (p: int)
    ensures p > 0
  {
    Pow(2, n)
  }

  /** The field holds the low n bits of v. */
  ghost predicate HasBits(s: seq<u8>, off: nat, n: nat, v: int)
    requires off + n <= 8 * |s|
  {
    forall a :: off <= a < off + n ==> BitAt(s, a) == Bit(v, off + n - 1 - a)
  }

  lemma BitHalf(v: int, k: nat)
    ensures Bit(v, k + 1) == Bit(v / 2, k)
  {
    HalveThenDiv(v, Pow(2, k));
  }

  lemma LowestBit(v: int)
    ensures Bit(v, 0) == v % 2
  {
    assert Pow(2, 0) == 1;
  }

  lemma HasBitsHalf(s: seq<u8>, off: nat, n: nat, v: int)
    requires off + n <= 8 * |s| && n > 0 && HasBits(s, off, n, v)
    ensures HasBits(s, off, n - 1, v / 2) && BitAt(s, off + n - 1) == v % 2
  {
    hide Bit, BitAt;
    LowestBit(v);
    assert BitAt(s, off + n - 1) == Bit(v, 0);
    forall a | off <= a < off + n - 1 ensures BitAt(s, a) == Bit(v / 2, off + (n - 1) - 1 - a) {
      BitHalf(v, off + (n - 1) - 1 - a);
    }
  }

  lemma Doubling(v: int, n: nat)
    requires n > 0
    ensures v % TwoTo(n) == 2 * ((v / 2) % TwoTo(n - 1)) + v % 2
  {
    HalveThenDiv(v, Pow(2, n - 1));
  }

  /** A field with the bits of v is v modulo 2^n. */
  lemma {:induction false} FieldOfBits(s: seq<u8>, off: nat, n: nat, v: int)
    requires off + n <= 8 * |s| && HasBits(s, off, n, v)
    ensures Field(s, off, n) == v % TwoTo(n)
  {
    hide HasBits, BitAt, TwoTo;
    if n > 0 {
      HasBitsHalf(s, off, n, v);
      FieldOfBits(s, off, n - 1, v / 2);
      Doubling(v, n);
    } else {
      OneIsAll(v);
    }
  }

  lemma OneIsAll(v: int)
    ensures v % TwoTo(0) == 0
  {
    assert TwoTo(0) == 1;
  }

  lemma {:induction false} FieldBound(s: seq<u8>, off: nat, n: nat)
    requires off + n <= 8 * |s|
    ensures 0 <= Field(s, off, n) < TwoTo(n)
  {
    hide BitAt, Bit;
    if n > 0 {
      FieldBound(s, off, n - 1);
      BitIsBit(s, off + n - 1);
    }
  }

  lemma BitIsBit(s: seq<u8>, pos: nat)
    requires pos < 8 * |s|
    ensures 0 <= BitAt(s, pos) <= 1
  {
    hide Pow;
  }

  lemma TwoToMore(f: int, n: nat)
    requires n > 0
    ensures f * TwoTo(n) == 2 * (f * TwoTo(n - 1))
  {
    var p: int := Pow(2, n - 1);
    assert TwoTo(n) == 2 * p;
    MulAssoc(f, 2, p);
    MulAssoc(2, f, p);
  }

  lemma {:induction false} FieldSplit(s: seq<u8>, off: nat, m: nat, n: nat)
    requires off + m + n <= 8 * |s|
    ensures Field(s, off, m + n) == Field(s, off, m) * TwoTo(n) + Field(s, off + m, n)
  {
    hide BitAt, TwoTo;
    if n == 0 {
      assert TwoTo(0) == 1 by { TwoToZero(); }
    } else {
      FieldSplit(s, off, m, n - 1);
      TwoToMore(Field(s, off, m), n);
    }
  }

  lemma TwoToZero()
    ensures TwoTo(0) == 1
  {}

  // ---- setting bits ----

  lemma {:induction false} PowBit(s: nat, k: nat)
    ensures Bit(Pow(2, s), k) == if k == s then 1 else 0
  {
    if k == 0 {
      assert Pow(2, 0) == 1;
      if s > 0 { assert Pow(2, s) == 2 * Pow(2, s - 1); }
    } else if s == 0 {
      assert Pow(2, 0) == 1 && Pow(2, k) == 2 * Pow(2, k - 1);
      DivModUnique(1, Pow(2, k), 0, 1);
    } else {
      PowBit(s - 1, k - 1);
      BitHalf(Pow(2, s), k - 1);
    }
  }

  /** A byte with one bit inverted. */
  function Toggle(b: u8, k: nat): (r: u8)
    requires k < 8
  {
    ToggleRange(b, k);
    BitOp(Xor, b, Pow(2, k))
  }

  lemma ToggleRange(b: u8, k: nat)
    requires k < 8
    ensures 0 <= BitOp(Xor, b, Pow(2, k)) < 256
  {
    assert Pow(2, 7) == 128 && Pow(2, 8) == 256;
    PowMono(2, k, 7);
    BitOpRange(Xor, b, Pow(2, k), 8);
  }

  lemma ToggleBit(b: u8, k: nat, j: nat)
    requires k < 8
    ensures Bit(Toggle(b, k), j) == if j == k then 1 - Bit(b, j) else Bit(b, j)
  {
    hide BitOp;
    BitOpBit(Xor, b, Pow(2, k), j);
    PowBit(k, j);
    hide Pow;
  }

  /** The binary with bit pos inverted. */
  function Flip(s: seq<u8>, pos: nat): seq<u8>
    requires pos < 8 * |s|
  {
    s[pos / 8 := Toggle(s[pos / 8], 7 - pos % 8)]
  }

  lemma FlipBit(s: seq<u8>, pos: nat, i: nat)
    requires pos < 8 * |s| && i < 8 * |s|
    ensures BitAt(Flip(s, pos), i) == if i == pos then 1 - BitAt(s, i) else BitAt(s, i)
  {
    hide Bit, Toggle;
    if i / 8 == pos / 8 { ToggleBit(s[pos / 8], 7 - pos % 8, 7 - i % 8); }
  }

  // ---- bytes of a number reversed ----

  /** The low k bytes of x in reverse. */
  function Rev(x: int, k: nat): int
    decreases k
  {
    if k == 0 then 0 else (x % 256) * Pow(256, k - 1) + Rev(x / 256, k - 1)
  }

  /** Byte i of x. */
  function Byte(x: int, i: nat): int { x / Pow(256, i) % 256 }

  lemma ByteBelow(x: int, i: nat)
    ensures Byte(x / 256, i) == Byte(x, i + 1)
  {
    hide Pow;
    var p: int := Pow(256, i);
    assert Pow(256, i + 1) == 256 * p by { PowStep(i); }
    DivTwice(x, p);
  }

  lemma PowStep(i: nat)
    ensures Pow(256, i + 1) == 256 * Pow(256, i)
  {}

  lemma DivTwice(x: int, p: int)
    requires p > 0
    ensures x / (256 * p) == x / 256 / p
  {
    var q, r := x / 256 / p, x / 256 % p;
    DivMod(x, 256);
    DivMod(x / 256, p);
    assert x == 256 * (p * q + r) + x % 256;
    MulDist(256, p * q, r);
    MulAssoc(256, p, q);
    DivModUnique(x, 256 * p, q, 256 * r + x % 256);
  }

  /** The next byte goes behind the ones already reversed. */
  lemma {:induction false} RevTail(x: int, k: nat)
    ensures Rev(x, k + 1) == 256 * Rev(x, k) + Byte(x, k)
    decreases k
  {
    if k == 0 {
      assert Pow(256, 0) == 1;
      assert Rev(x / 256, 0) == 0;
    } else {
      RevTail(x / 256, k - 1);
      ByteBelow(x, k - 1);
      PowStep(k - 1);
      hide Pow, Byte, Rev;
      RevSteps(x, k);
      MulAssoc(x % 256, 256, Pow(256, k - 1));
      MulAssoc(256, x % 256, Pow(256, k - 1));
      MulDist(256, (x % 256) * Pow(256, k - 1), Rev(x / 256, k - 1));
    }
  }

  lemma RevSteps(x: int, k: nat)
    requires k > 0
    ensures Rev(x, k + 1) == (x % 256) * Pow(256, k) + Rev(x / 256, k)
    ensures Rev(x, k) == (x % 256) * Pow(256, k - 1) + Rev(x / 256, k - 1)
  {
    hide Pow;
  }

  lemma {:induction false} RevBound(x: int, k: nat)
    ensures 0 <= Rev(x, k) < Pow(256, k)
    decreases k
  {
    if k > 0 {
      RevBound(x / 256, k - 1);
      var p: int := Pow(256, k - 1);
      MulMono(p, x % 256, 255);
      MulMono(p, 0, x % 256);
      MulComm(p, x % 256);
    }
  }

  /** Reversing twice gives the bytes back. */
  lemma {:induction false} RevTwice(x: int, k: nat)
    ensures Rev(Rev(x, k), k) == x % Pow(256, k)
  {
    if k == 0 {
      assert Pow(256, 0) == 1;
    } else {
      RevTwice(x, k - 1);
      RevTail(x, k - 1);
      RevLast(x, k);
      BytesSplit(x, k);
    }
  }

  lemma RevLast(x: int, k: nat)
    requires k > 0 && Rev(x, k) == 256 * Rev(x, k - 1) + Byte(x, k - 1)
    ensures Rev(Rev(x, k), k) == Byte(x, k - 1) * Pow(256, k - 1) + Rev(Rev(x, k - 1), k - 1)
  {
    var y := Rev(x, k);
    DivModUnique(y, 256, Rev(x, k - 1), Byte(x, k - 1));
    assert Rev(y, k) == (y % 256) * Pow(256, k - 1) + Rev(y / 256, k - 1);
  }

  lemma BytesSplit(x: int, k: nat)
    requires k > 0
    ensures x % Pow(256, k) == Byte(x, k - 1) * Pow(256, k - 1) + x % Pow(256, k - 1)
  {
    var p: int := Pow(256, k - 1);
    assert Pow(256, k) == 256 * p;
    hide Pow;
    var q, r := x / p, x % p;
    DivMod(x, p);
    DivMod(q, 256);
    var h, l := q / 256, q % 256;
    assert x == p * (256 * h + l) + r;
    MulDist(p, 256 * h, l);
    MulAssoc(p, 256, h);
    MulComm(p, l);
    MulComm(p, 256);
    MulMono(p, l, 255);
    MulMono(p, 0, l);
    DivModUnique(x, 256 * p, h, l * p + r);
  }

  lemma NoByte(x: int, k: nat, i: nat)
    requires 0 <= x < Pow(256, k) && k <= i
    ensures Byte(x, i) == 0
  {
    hide Pow;
    PowMono(256, k, i);
    DivModUnique(x, Pow(256, i), 0, x);
  }

  /** Zero bytes above move the reversed bytes up. */
  lemma {:induction false} RevPadded(x: int, k: nat, m: nat)
    requires 0 <= x < Pow(256, k) && k <= m
    ensures Rev(x, m) == Rev(x, k) * Pow(256, m - k)
    decreases m
  {
    hide Pow, Rev, Byte;
    if m == k {
      assert Pow(256, 0) == 1 by { PowNone(); }
    } else {
      RevPadded(x, k, m - 1);
      RevTail(x, m - 1);
      NoByte(x, k, m - 1);
      PowStep(m - 1 - k);
      MulAssoc(256, Rev(x, k), Pow(256, m - 1 - k));
      MulAssoc(Rev(x, k), 256, Pow(256, m - 1 - k));
    }
  }

  lemma PowNone()
    ensures Pow(256, 0) == 1
  {}

  lemma BytePower(k: nat)
    ensures TwoTo(8 * k) == Pow(256, k)
  {
    assert Pow(2, 8) == 256 by { PowAdd(2, 4, 4); assert Pow(2, 4) == 16; }
    PowMul(2, 8, k);
  }

  /** from_le64 on a number of k bytes, shifted down to them. */
  lemma SwapDown(x: int, k: nat)
    requires 0 <= x < Pow(256, k) && k <= 8
    ensures Rev(x, 8) / TwoTo(64 - 8 * k) == Rev(x, k)
  {
    hide Pow, Rev, TwoTo;
    RevPadded(x, k, 8);
    BytePower(8 - k);
    var p: int := Pow(256, 8 - k);
    MulComm(Rev(x, k), p);
    DivModUnique(Rev(x, 8), p, Rev(x, k), 0);
  }

  // ---- bits of shifted, cut and reversed numbers ----

  lemma {:induction false} BitOfQuotient(x: int, s: nat, b: nat)
    ensures Bit(x / TwoTo(s), b) == Bit(x, b + s)
    decreases s
  {
    if s == 0 {
      assert TwoTo(0) == 1;
    } else {
      BitOfQuotient(x / 2, s - 1, b);
      BitHalf(x, b + s - 1);
      HalveThenDiv(x, Pow(2, s - 1));
      assert TwoTo(s) == 2 * TwoTo(s - 1);
    }
  }

  lemma {:induction false} BitOfRemainder(x: int, n: nat, b: nat)
    ensures Bit(x % TwoTo(n), b) == if b < n then Bit(x, b) else 0
    decreases b
  {
    if b >= n {
      PowMono(2, n, b);
      hide Pow;
      DivModUnique(x % TwoTo(n), Pow(2, b), 0, x % TwoTo(n));
    } else {
      Doubling(x, n);
      if b == 0 {
        LowestBit(x);
        LowestBit(x % TwoTo(n));
      } else {
        BitOfRemainder(x / 2, n - 1, b - 1);
        BitHalf(x, b - 1);
        BitHalf(x % TwoTo(n), b - 1);
      }
    }
  }

  /** Bit b of byte i. */
  lemma BitOfByte(x: int, i: nat, b: nat)
    requires b < 8
    ensures Bit(Byte(x, i), b) == Bit(x, 8 * i + b)
  {
    hide Bit, Pow;
    BytePower(i);
    BitOfQuotient(x, 8 * i, b);
    assert TwoTo(8) == 256 by { BytePower(1); PowOne(256); }
    BitOfRemainder(x / TwoTo(8 * i), 8, b);
  }

  lemma {:induction false} ByteOfRev(x: int, k: nat, i: nat)
    requires i < k
    ensures Byte(Rev(x, k), i) == Byte(x, k - 1 - i)
    decreases k
  {
    hide Pow, Rev, Byte;
    RevTail(x, k - 1);
    ByteIsByte(x, k - 1);
    LowestByte(Rev(x, k), Rev(x, k - 1), Byte(x, k - 1));
    if i > 0 {
      ByteBelow(Rev(x, k), i - 1);
      ByteOfRev(x, k - 1, i - 1);
    }
  }

  lemma LowestByte(y: int, q: int, r: int)
    requires y == 256 * q + r && 0 <= r < 256
    ensures Byte(y, 0) == r && y / 256 == q
  {
    DivModUnique(y, 256, q, r);
    PowNone();
  }

  /** Reversing moves bit p of k bytes within its byte's new place. */
  lemma BitOfRev(x: int, k: nat, p: nat)
    requires p < 8 * k
    ensures Bit(Rev(x, k), p) == Bit(x, 8 * (k - 1 - p / 8) + p % 8)
  {
    hide Bit, Rev, Byte;
    BitOfByte(Rev(x, k), p / 8, p % 8);
    BitOfByte(x, k - 1 - p / 8, p % 8);
    ByteOfRev(x, k, p / 8);
  }

  /** Numbers below 2^n with the same n bits are the same. */
  lemma SameBits(x: int, y: int, n: nat)
    requires 0 <= x < TwoTo(n) && 0 <= y < TwoTo(n)
    ensures x == y <==> forall j :: 0 <= j < n ==> Bit(x, j) == Bit(y, j)
  {
    hide Bit, TwoTo;
    if forall j :: 0 <= j < n ==> Bit(x, j) == Bit(y, j) {
      DivModUnique(x, TwoTo(n), 0, x);
      DivModUnique(y, TwoTo(n), 0, y);
      forall k: nat ensures Bit(x, k) == Bit(y, k) {
        BitOfRemainder(x, n, k);
        BitOfRemainder(y, n, k);
      }
      BitsDetermine(x, y);
    }
  }

  /** A remainder of a remainder. */
  lemma CutTwice(x: int, m: nat, n: nat)
    requires n <= m
    ensures x % TwoTo(m) % TwoTo(n) == x % TwoTo(n)
  {
    PowAdd(2, n, m - n);
    hide Pow;
    var p: int, q: int := TwoTo(n), Pow(2, m - n);
    var u := x % TwoTo(m);
    DivMod(x, TwoTo(m));
    DivMod(u, p);
    MulAssoc(p, q, x / TwoTo(m));
    MulDist(p, q * (x / TwoTo(m)), u / p);
    DivModUnique(x, p, q * (x / TwoTo(m)) + u / p, u % p);
  }

  /** Bytes that are cut off do not matter to the ones reversed. */
  lemma RevOfCut(x: int, m: nat, k: nat)
    requires 8 * k <= m
    ensures Rev(x % TwoTo(m), k) == Rev(x, k)
  {
    hide Rev, TwoTo, Pow;
    CutTwice(x, m, 8 * k);
    BytePower(k);
    RevOnlyLow(x, k);
    RevOnlyLow(x % TwoTo(m), k);
  }

  lemma RevOnlyLow(x: int, k: nat)
    ensures Rev(x % Pow(256, k), k) == Rev(x, k)
  {
    hide Rev, Pow;
    RevTwice(x, k);
    RevTwice(Rev(x, k), k);
    RevBound(x, k);
    DivModUnique(Rev(x, k), Pow(256, k), 0, Rev(x, k));
  }

  // ---- what a field says ----

  /** A 64-bit word. */
  function Word(value: int): int { value % TwoTo(64) }

  function Min(x: nat, y: nat): nat { if x < y then x else y }

  /** What is written for a value: the low bits of its 64-bit word, at the end of a longer
      field, and for little-endian the bytes of the word in reverse. Behind 64 bits only
      aligned bytes go on in place; else the reversed word is cut to 64 bits. */
  function Encoded(value: int, n: nat, little: bool, aligned: bool): int {
    if little && aligned && n % 8 == 0 then Rev(Word(value), n / 8)
    else (if little then Rev(Word(value), (n + 7) / 8) else Word(value)) % TwoTo(Min(n, 64))
  }

  /** Up to 64 bits the alignment does not matter, and the word is as good as the value. */
  lemma EncodedShort(value: int, n: nat, little: bool, aligned: bool)
    requires n <= 64
    ensures Encoded(value, n, little, aligned) ==
            (if little then Rev(value, (n + 7) / 8) else value) % TwoTo(n)
    ensures little && n % 8 == 0 ==> Encoded(value, n, little, aligned) == Rev(value, n / 8)
  {
    hide Rev, TwoTo;
    var k := (n + 7) / 8;
    CutTwice(value, 64, n);
    RevOfCut(value, 64, k);
    if n % 8 == 0 {
      RevBound(value, k);
      BytePower(k);
      DivModUnique(Rev(value, k), TwoTo(n), 0, Rev(value, k));
    }
  }

  function Unswapped(field: int, n: nat, little: bool): int
    requires n <= 64
  {
    if little then Rev(field, 8) / TwoTo(64 - n) else field
  }

  /** What is read from a field of up to 64 bits: swapped as a 64-bit word and shifted down,
      and with the sign carried up. */
  function Decoded(field: int, n: nat, little: bool, signed: bool): int
    requires n <= 64
  {
    var out := Unswapped(field, n, little);
    if signed && 2 * out >= TwoTo(n) then out - TwoTo(n) else out
  }

  /** The value modulo 2^n, or the value of those bits as a signed integer. */
  function Wrapped(value: int, n: nat, signed: bool): int {
    var v := value % TwoTo(n);
    if signed && 2 * v >= TwoTo(n) then v - TwoTo(n) else v
  }

  /** Where bit j of a little-endian field with part of a byte is read from: writing cuts the
      top bits of the first byte, reading shifts by as many, so bits move down. */
  function Moved(value: int, n: nat, j: nat): int {
    var i, r := j + 8 - n % 8, n % 8;
    if r <= i < 8 then 0 else Bit(value, i)
  }

  /** The bits that move come to lie on equal ones. */
  ghost predicate BitsStay(value: int, n: nat) {
    forall j :: 0 <= j < n ==> Bit(value, j) == Moved(value, n, j)
  }

  /** Bit j of what is read back from a little-endian field with part of a byte. */
  lemma PartByteBit(value: int, n: nat, j: nat)
    requires n <= 64 && n % 8 != 0 && j < n
    ensures Bit(Rev(Rev(value, (n + 7) / 8) % TwoTo(n), 8) / TwoTo(64 - n), j) == Moved(value, n, j)
  {
    hide Bit, Rev, TwoTo;
    var k, i := n / 8, j + 8 - n % 8;
    var e, q := Rev(value, k + 1) % TwoTo(n), 8 * (k - i / 8) + i % 8;
    Places(n, j, k, i, q);
    BitOfQuotient(Rev(e, 8), 64 - n, j);
    BitOfRev(e, 8, j + (64 - n));
    BitOfRemainder(Rev(value, k + 1), n, q);
    BitOfRev(value, k + 1, q);
  }

  /** Positions of a bit on the way: i in the value, q in the field, and in the swapped word. */
  lemma Places(n: nat, j: nat, k: nat, i: nat, q: int)
    requires n <= 64 && n % 8 != 0 && j < n && k == n / 8 && i == j + 8 - n % 8 && q == 8 * (k - i / 8) + i % 8
    ensures 0 <= q < 8 * (k + 1) && (q < n <==> !(n % 8 <= i < 8)) && (n + 7) / 8 == k + 1
    ensures 8 * (7 - (j + (64 - n)) / 8) + (j + (64 - n)) % 8 == q
    ensures 8 * (k - q / 8) + q % 8 == i
  {
    var r, a, b := n % 8, i / 8, i % 8;
    Bytes8(n, k, r);
    Bytes8(i, a, b);
    Bytes8(j + (64 - n), 7 - k + a, b);
    Bytes8(q, k - a, b);
    Bytes8(n + 7, k + 1, r - 1);
    PlacesApart(n, j, k, r, a, b);
  }

  lemma PlacesApart(n: nat, j: nat, k: nat, r: nat, a: nat, b: nat)
    requires n <= 64 && 0 < r < 8 && b < 8 && n == 8 * k + r && j < n && 8 * a + b == j + 8 - r
    ensures 0 <= 8 * (k - a) + b < 8 * (k + 1) && (8 * (k - a) + b < n <==> !(r <= 8 * a + b < 8))
  {}

  /** Quotient and remainder by eight are the only ones. */
  lemma Bytes8(x: int, a: int, b: int)
    requires 0 <= b < 8 && (x == 8 * a + b || (x / 8 == a && x % 8 == b))
    ensures x == 8 * a + b && x / 8 == a && x % 8 == b
  {}

  /** A value read back from its field of up to 64 bits is the value of the width of the
      field, exactly if the field is big-endian, of whole bytes, or its bits stay. */
  lemma RoundTrip(value: int, n: nat, little: bool, aligned: bool, signed: bool)
    requires n <= 64
    ensures Decoded(Encoded(value, n, little, aligned), n, little, signed) == Wrapped(value, n, signed)
            <==> !little || n % 8 == 0 || BitsStay(value, n)
  {
    hide Rev, TwoTo, Encoded;
    EncodedShort(value, n, little, aligned);
    if little && n % 8 != 0 {
      PartByteTrip(value, n);
    } else if little {
      var k := n / 8;
      RevBound(value, k);
      BytePower(k);
      SwapDown(Rev(value, k), k);
      RevTwice(value, k);
    }
  }

  lemma PartByteTrip(value: int, n: nat)
    requires n <= 64 && n % 8 != 0
    ensures var out := Rev(Rev(value, (n + 7) / 8) % TwoTo(n), 8) / TwoTo(64 - n);
            0 <= out < TwoTo(n) && (out == value % TwoTo(n) <==> BitsStay(value, n))
  {
    hide Rev, TwoTo, Bit, Moved;
    var e := Rev(value, (n + 7) / 8) % TwoTo(n);
    var out := Rev(e, 8) / TwoTo(64 - n);
    TopOfWord(e, n);
    SameBits(out, value % TwoTo(n), n);
    forall j | 0 <= j < n ensures Bit(out, j) == Moved(value, n, j) && Bit(value % TwoTo(n), j) == Bit(value, j) {
      PartByteBit(value, n, j);
      BitOfRemainder(value, n, j);
    }
  }

  lemma TopOfWord(e: int, n: nat)
    requires n <= 64
    ensures 0 <= Rev(e, 8) / TwoTo(64 - n) < TwoTo(n)
  {
    hide Rev, Pow;
    RevBound(e, 8);
    BytePower(8);
    PowAdd(2, n, 64 - n);
    MulComm(Pow(2, n), Pow(2, 64 - n));
    QuotientBound(Rev(e, 8), TwoTo(64 - n), 0);
    QuotientBound(Rev(e, 8), TwoTo(64 - n), TwoTo(n));
  }

  /** 1 in a little-endian field of twelve bits comes back as 0. */
  lemma PartByteLost()
    ensures Decoded(Encoded(1, 12, true, true), 12, true, false) != Wrapped(1, 12, false)
  {
    hide Encoded, Decoded, Wrapped;
    RoundTrip(1, 12, true, true, false);
    assert Bit(1, 0) == 1 by { LowestBit(1); }
    assert Moved(1, 12, 0) == 0;
  }

  /** Within the range of the field the value itself comes back. */
  lemma InRange(value: int, n: nat, signed: bool)
    requires if signed then 0 <= 2 * value + TwoTo(n) && 2 * value < TwoTo(n) else 0 <= value < TwoTo(n)
    ensures Wrapped(value, n, signed) == value
  {
    var p := TwoTo(n);
    hide TwoTo;
    if value >= 0 { DivModUnique(value, p, 0, value); } else { DivModUnique(value, p, -1, value + p); }
  }

  // ---- fields of more than 64 bits ----

  /** What a longer field should hold: the bits of the value, with its sign repeated above,
      whole bytes reversed for little-endian. */
  function Intended(value: int, n: nat, little: bool): int {
    if little then Rev(value, n / 8) else value % TwoTo(n)
  }

  predicate IsInt64(value: int) { -0x8000_0000_0000_0000 <= value < 0x8000_0000_0000_0000 }

  /** A longer field holds the value exactly if that is not negative and, little-endian off a
      byte border, has as many zero bytes as the field has bytes beyond eight. */
  lemma LongExact(value: int, n: nat, little: bool, aligned: bool)
    requires n > 64 && IsInt64(value) && (little ==> n % 8 == 0)
    ensures Encoded(value, n, little, aligned) == Intended(value, n, little) <==>
              value >= 0 && (!little || aligned || value % Pow(256, n / 8 - 8) == 0)
  {
    hide Rev, Pow;
    WordOf(value);
    if !little {
      LongBig(value, n);
    } else if value < 0 {
      LongNegative(value, n / 8);
      CutKeepsByte(Rev(Word(value), n / 8));
    } else if !aligned {
      LongUnaligned(value, n / 8);
    }
  }

  lemma WordOf(value: int)
    requires IsInt64(value)
    ensures TwoTo(64) == 0x1_0000_0000_0000_0000
    ensures Word(value) == if value < 0 then value + 0x1_0000_0000_0000_0000 else value
  {
    assert TwoTo(64) == 0x1_0000_0000_0000_0000 by {
      BytePower(8);
      assert Pow(256, 2) == 65536;
      PowAdd(256, 2, 2);
      PowAdd(256, 4, 4);
    }
    hide TwoTo;
    DivModUnique(value, TwoTo(64), if value < 0 then -1 else 0, if value < 0 then value + TwoTo(64) else value);
  }

  lemma LongBig(value: int, n: nat)
    requires n > 64 && IsInt64(value)
    ensures Word(value) % TwoTo(64) == value % TwoTo(n) <==> value >= 0
  {
    WordOf(value);
    PowMono(2, 65, n);
    PowAdd(2, 64, 1);
    hide Pow;
    assert TwoTo(65) == 2 * TwoTo(64) by { assert Pow(2, 1) == 2 by { PowOne(2); } }
    DivModUnique(Word(value), TwoTo(64), 0, Word(value));
    DivModUnique(value, TwoTo(n), if value < 0 then -1 else 0, if value < 0 then value + TwoTo(n) else value);
  }

  /** The last byte of a reversed negative value is all ones, that of its word zero. */
  lemma LongNegative(value: int, k: nat)
    requires k > 8 && IsInt64(value) && value < 0
    ensures Rev(value, k) % 256 == 255 && Rev(Word(value), k) % 256 == 0
  {
    hide Rev, Pow, TwoTo, Byte;
    WordOf(value);
    BytePower(8);
    NegativeByte(value, k - 1);
    NoByte(Word(value), 8, k - 1);
    LastReversed(value, k);
    LastReversed(Word(value), k);
  }

  lemma LastReversed(x: int, k: nat)
    requires k > 0
    ensures Rev(x, k) % 256 == Byte(x, k - 1)
  {
    hide Rev, Pow;
    RevTail(x, k - 1);
    ByteIsByte(x, k - 1);
    DivModUnique(Rev(x, k), 256, Rev(x, k - 1), Byte(x, k - 1));
  }

  /** Above its bits a negative value has bytes of ones. */
  lemma NegativeByte(value: int, i: nat)
    requires i >= 8 && IsInt64(value) && value < 0
    ensures Byte(value, i) == 255
  {
    hide Pow, TwoTo;
    WordOf(value);
    BytePower(8);
    PowMono(256, 8, i);
    DivModUnique(value, Pow(256, i), -1, value + Pow(256, i));
  }

  lemma CutKeepsByte(x: int)
    ensures x % TwoTo(64) % 256 == x % 256
  {
    CutTwice(x, 64, 8);
    assert TwoTo(8) == 256 by { BytePower(1); PowOne(256); }
  }

  /** The reversed bytes of a word in a longer field fit 64 bits exactly if the low bytes of
      the word are zero. */
  lemma LongUnaligned(value: int, k: nat)
    requires k > 8 && 0 <= value < 0x8000_0000_0000_0000
    ensures Rev(value, k) % TwoTo(64) == Rev(value, k) <==> value % Pow(256, k - 8) == 0
  {
    hide Rev, Pow, TwoTo;
    WordOf(value);
    BytePower(8);
    RevBound(value, k);
    DivMod(Rev(value, k), TwoTo(64));
    if Rev(value, k) < TwoTo(64) { DivModUnique(Rev(value, k), TwoTo(64), 0, Rev(value, k)); }
    LowBytesZero(value, k);
  }

  lemma LowBytesZero(value: int, k: nat)
    requires k > 8 && 0 <= value < Pow(256, 8)
    ensures Rev(value, k) < Pow(256, 8) <==> value % Pow(256, k - 8) == 0
  {
    hide Rev, Pow;
    var j := k - 8;
    RevSplit(value, j, 8);
    RevBound(value / Pow(256, j), 8);
    RevBound(value, j);
    RevZero(value, j);
    TopZero(Rev(value, j), Pow(256, 8), Rev(value / Pow(256, j), 8));
  }

  lemma TopZero(hi: int, p: int, lo: int)
    requires 0 <= hi && 0 <= lo < p
    ensures hi * p + lo < p <==> hi == 0
  {
    if hi > 0 { MulMono(p, 1, hi); MulComm(p, hi); }
  }

  /** The first j bytes go to the front. */
  lemma {:induction false} RevSplit(x: int, j: nat, k: nat)
    ensures Rev(x, j + k) == Rev(x, j) * Pow(256, k) + Rev(x / Pow(256, j), k)
    decreases k
  {
    hide Rev, Byte, Pow;
    if k == 0 {
      PowNone();
      NoRev(x / Pow(256, j));
    } else {
      RevSplit(x, j, k - 1);
      RevTail(x, j + k - 1);
      RevTail(x / Pow(256, j), k - 1);
      ByteOfQuotient(x, j, k - 1);
      PowStep(k - 1);
      MulAssoc(256, Rev(x, j), Pow(256, k - 1));
      MulAssoc(Rev(x, j), 256, Pow(256, k - 1));
    }
  }

  lemma ByteOfQuotient(x: int, j: nat, i: nat)
    ensures Byte(x / Pow(256, j), i) == Byte(x, j + i)
  {
    PowAdd(256, j, i);
    hide Pow;
    DivByBoth(x, Pow(256, j), Pow(256, i));
  }

  lemma DivByBoth(x: int, p: int, q: int)
    requires p > 0 && q > 0
    ensures p * q > 0 && x / (p * q) == x / p / q
  {
    var h, r := x / p / q, x / p % q;
    DivMod(x, p);
    DivMod(x / p, q);
    MulDist(p, q * h, r);
    MulAssoc(p, q, h);
    MulMono(p, r + 1, q);
    MulMono(p, 0, r);
    MulDist(p, r, 1);
    MulCompare(p, 0, q);
    DivModUnique(x, p * q, h, p * r + x % p);
  }

  /** Reversed bytes are zero exactly if the bytes are. */
  lemma RevZero(x: int, j: nat)
    ensures Rev(x, j) == 0 <==> x % Pow(256, j) == 0
  {
    hide Pow;
    RevTwice(x, j);
    RevOnlyLow(x, j);
    RevOfZero(j);
  }

  lemma {:induction false} RevOfZero(k: nat)
    ensures Rev(0, k) == 0
  {
    if k > 0 { RevOfZero(k - 1); }
  }

  /** 1 in a little-endian field of 72 bits is lost off a byte border, and -1 in one of 72
      bits does not fill it. */
  lemma LongFieldsLost()
    ensures Encoded(1, 72, true, false) != Encoded(1, 72, true, true) == Intended(1, 72, true)
    ensures Encoded(-1, 72, false, true) != Intended(-1, 72, false)
  {
    hide Encoded, Intended;
    PowOne(256);
    LongExact(1, 72, true, false);
    LongExact(1, 72, true, true);
    LongExact(-1, 72, false, true);
  }

  // ---- reading ----

  /** The code shifts a 64-bit word by 64 bits or by minus one, which C leaves undefined. */
  ghost predicate ShiftsTooFar(field: int, n: nat, little: bool, signed: bool)
    requires n <= 64
  {
    (n == 0 && (little || signed)) || (n == 64 && signed && 2 * Unswapped(field, n, little) >= TwoTo(n))
  }

  /** The smallest signed 64-bit integer off a byte border. */
  lemma SignedWordUndefined()
    ensures ShiftsTooFar(0x8000_0000_0000_0000, 64, false, true)
  {
    WordOf(0);
  }

  /** bitstring_extract_any_integer; callers ask for 64 bits at most. */
  method ExtractAny(src: seq<u8>, off: nat, n: nat, little: bool, signed: bool) returns (r: Option<int>)
    requires off + n <= 8 * |src| && n <= 64
    ensures r == if ShiftsTooFar(Field(src, off, n), n, little, signed) then None
                 else Some(Decoded(Field(src, off, n), n, little, signed))
  {
    hide BitAt, TwoTo, Rev;
    var out := 0;
    TwoToZero();
    for i := 0 to n
      invariant out == Field(src, off, i) * TwoTo(n - i)
    {
      BitIsBit(src, off + i);
      TwoToMore(Field(src, off, i), n - i);
      if BitAt(src, off + i) == 1 { out := out + TwoTo(n - i - 1); }
      OneBitMore(src, off, i, n - i - 1);
    }
    if little {
      if n == 0 { return None; }
      out := Rev(out, 8) / TwoTo(64 - n);
    }
    if signed {
      if n == 0 { return None; }
      if 2 * out >= TwoTo(n) {
        if n == 64 { return None; }
        out := out - TwoTo(n);
      }
    }
    r := Some(out);
  }

  lemma OneBitMore(src: seq<u8>, off: nat, i: nat, j: nat)
    requires off + i < 8 * |src|
    ensures Field(src, off, i + 1) * TwoTo(j) == 2 * (Field(src, off, i) * TwoTo(j)) + BitAt(src, off + i) * TwoTo(j)
  {
    hide BitAt, TwoTo;
    var f, b, p := Field(src, off, i), BitAt(src, off + i), TwoTo(j);
    assert (2 * f + b) * p == 2 * (f * p) + b * p;
  }

  // ---- writing ----

  /** Bits outside the field are as they were. */
  ghost predicate OnlyField(was: seq<u8>, s: seq<u8>, off: nat, n: nat) {
    |s| == |was| && forall a :: 0 <= a < 8 * |s| && !(off <= a < off + n) ==> BitAt(s, a) == BitAt(was, a)
  }

  ghost predicate Zeroed(s: seq<u8>, off: nat, n: nat)
    requires off + n <= 8 * |s|
  {
    forall a :: off <= a < off + n ==> BitAt(s, a) == 0
  }

  /** The first i bits of the field are written, the others still zero. */
  ghost predicate WrittenBits(was: seq<u8>, s: seq<u8>, off: nat, n: nat, w: int, i: nat) {
    |s| == |was| && off + n <= 8 * |s| && i <= n &&
    forall a :: 0 <= a < 8 * |s| ==>
      BitAt(s, a) == if off <= a < off + i then Bit(w, off + n - 1 - a) else BitAt(was, a)
  }

  lemma WriteOneBit(was: seq<u8>, s: seq<u8>, off: nat, n: nat, w: int, i: nat)
    requires WrittenBits(was, s, off, n, w, i) && i < n && Zeroed(was, off, n)
    ensures WrittenBits(was, if Bit(w, n - 1 - i) == 1 then Flip(s, off + i) else s, off, n, w, i + 1)
  {
    hide BitAt, Flip;
    FlipLength(s, off + i);
    var t := if Bit(w, n - 1 - i) == 1 then Flip(s, off + i) else s;
    forall a | 0 <= a < 8 * |s|
      ensures BitAt(t, a) == if off <= a < off + i + 1 then Bit(w, off + n - 1 - a) else BitAt(was, a)
    {
      FlipBit(s, off + i, a);
    }
  }

  lemma FlipLength(s: seq<u8>, pos: nat)
    requires pos < 8 * |s|
    ensures |Flip(s, pos)| == |s|
  {}

  /** Most significant bit first, into a field of zeros. */
  method InsertBits(dst: array<u8>, off: nat, w: int, n: nat)
    requires off + n <= 8 * dst.Length && Zeroed(dst[..], off, n)
    modifies dst
    ensures OnlyField(old(dst[..]), dst[..], off, n) && Field(dst[..], off, n) == w % TwoTo(n)
  {
    hide BitAt, Bit, TwoTo, WrittenBits, Zeroed, Flip;
    ghost var was := dst[..];
    NothingWritten(was, off, n, w);
    for i := 0 to n
      invariant WrittenBits(was, dst[..], off, n, w, i)
    {
      ghost var before := dst[..];
      WriteOneBit(was, before, off, n, w, i);
      if Bit(w, n - 1 - i) == 1 {
        FlipIs(before, off + i);
        var pos := off + i;
        dst[pos / 8] := Toggle(dst[pos / 8], 7 - pos % 8);
        assert dst[..] == Flip(before, off + i);
      }
    }
    AllWritten(was, dst[..], off, n, w);
  }

  lemma NothingWritten(was: seq<u8>, off: nat, n: nat, w: int)
    requires off + n <= 8 * |was|
    ensures WrittenBits(was, was, off, n, w, 0)
  {
    hide BitAt;
  }

  lemma FlipIs(s: seq<u8>, pos: nat)
    requires pos < 8 * |s|
    ensures Flip(s, pos) == s[pos / 8 := Toggle(s[pos / 8], 7 - pos % 8)]
  {}

  lemma AllWritten(was: seq<u8>, s: seq<u8>, off: nat, n: nat, w: int)
    requires WrittenBits(was, s, off, n, w, n)
    ensures OnlyField(was, s, off, n) && Field(s, off, n) == w % TwoTo(n)
  {
    hide BitAt, Bit, TwoTo;
    assert HasBits(s, off, n, w);
    FieldOfBits(s, off, n, w);
  }

  /** A byte is the field of its eight bits. */
  lemma BitInByte(s: seq<u8>, b: nat, a: nat)
    requires b < |s| && 8 * b <= a < 8 * b + 8
    ensures BitAt(s, a) == Bit(s[b], 8 * b + 8 - 1 - a)
  {
    Bytes8(a, b, a - 8 * b);
  }

  lemma ByteField(s: seq<u8>, b: nat)
    requires b < |s|
    ensures Field(s, 8 * b, 8) == s[b]
  {
    hide Bit, TwoTo, BitAt;
    forall a | 8 * b <= a < 8 * b + 8 ensures BitAt(s, a) == Bit(s[b], 8 * b + 8 - 1 - a) { BitInByte(s, b, a); }
    FieldOfBits(s, 8 * b, 8, s[b]);
    assert TwoTo(8) == 256 by { EightBits(); }
  }

  lemma EightBits()
    ensures TwoTo(8) == 256
  {
    PowAdd(2, 4, 4);
    assert Pow(2, 4) == 16;
  }

  /** k bytes from b on are the low bytes of x. */
  ghost predicate HasBytes(s: seq<u8>, b: nat, k: nat, x: int, little: bool) {
    b + k <= |s| && forall a :: b <= a < b + k ==> s[a] == Byte(x, if little then a - b else b + k - 1 - a)
  }

  lemma FewerLittle(s: seq<u8>, b: nat, k: nat, x: int)
    requires HasBytes(s, b, k, x, true) && k > 0
    ensures HasBytes(s, b, k - 1, x, true) && s[b + k - 1] == Byte(x, k - 1)
  {
    hide Byte;
  }

  lemma FewerBig(s: seq<u8>, b: nat, k: nat, x: int)
    requires HasBytes(s, b, k, x, false) && k > 0
    ensures HasBytes(s, b, k - 1, x / 256, false) && s[b + k - 1] == Byte(x, 0)
  {
    hide Byte;
    forall a | b <= a < b + k - 1 ensures s[a] == Byte(x / 256, b + (k - 1) - 1 - a) {
      ByteBelow(x, b + (k - 1) - 1 - a);
    }
  }

  /** One more byte at the end of a field of bytes. */
  lemma FieldByte(s: seq<u8>, b: nat, k: nat)
    requires 0 < k && b + k <= |s|
    ensures Field(s, 8 * b, 8 * k) == 256 * Field(s, 8 * b, 8 * k - 8) + s[b + k - 1]
  {
    hide *;
    var c := b + k - 1;
    ByteField(s, c);
    EightBits();
    var off, m, all, at := 8 * b, 8 * (k - 1), 8 * k, 8 * c;
    ByteBehind(s, off, m, all, at);
    var x, y := Field(s, off, all), Field(s, off, m);
    assert x == 256 * y + s[c];
    assert Field(s, 8 * b, 8 * k) == x;
    assert Field(s, 8 * b, 8 * (k - 1)) == y;
  }

  lemma ByteBehind(s: seq<u8>, off: nat, m: nat, all: nat, at: nat)
    requires all == m + 8 && at == off + m && at + 8 <= 8 * |s| && TwoTo(8) == 256
    ensures Field(s, off, all) == 256 * Field(s, off, m) + Field(s, at, 8)
  {
    hide *;
    FieldSplit(s, off, m, 8);
    var f := Field(s, off, m);
    MulComm(f, TwoTo(8));
  }

  lemma NoField(s: seq<u8>, off: nat)
    requires off <= 8 * |s|
    ensures Field(s, off, 0) == 0
  {}

  /** Bytes with the least significant first are the number reversed. */
  lemma {:induction false} LittleField(s: seq<u8>, b: nat, k: nat, x: int)
    requires HasBytes(s, b, k, x, true)
    ensures Field(s, 8 * b, 8 * k) == Rev(x, k)
    decreases k
  {
    hide Byte, Field, Rev;
    if k > 0 {
      FewerLittle(s, b, k, x);
      LittleField(s, b, k - 1, x);
      FieldByte(s, b, k);
      RevTail(x, k - 1);
    } else {
      NoField(s, 8 * b);
      assert Rev(x, 0) == 0 by { NoRev(x); }
    }
  }

  lemma NoRev(x: int)
    ensures Rev(x, 0) == 0
  {}

  /** Bytes with the most significant first are the number itself. */
  lemma {:induction false} BigField(s: seq<u8>, b: nat, k: nat, x: int)
    requires HasBytes(s, b, k, x, false)
    ensures Field(s, 8 * b, 8 * k) == x % Pow(256, k)
    decreases k
  {
    hide Byte, Field, Pow, HasBytes;
    assert b + k <= |s| by { BytesInside(s, b, k, x, false); }
    if k > 0 {
      FewerBig(s, b, k, x);
      BigField(s, b, k - 1, x / 256);
      FieldByte(s, b, k);
      LastByte(x, k);
    } else {
      NoField(s, 8 * b);
      PowNone();
    }
  }

  lemma BytesInside(s: seq<u8>, b: nat, k: nat, x: int, little: bool)
    requires HasBytes(s, b, k, x, little)
    ensures b + k <= |s|
  {}

  lemma LastByte(x: int, k: nat)
    requires k > 0
    ensures Byte(x, 0) == x % 256 && x % Pow(256, k) == 256 * ((x / 256) % Pow(256, k - 1)) + x % 256
  {
    PowNone();
    var p: int := Pow(256, k - 1);
    PowStep(k - 1);
    hide Pow;
    var q, r := x / 256 / p, x / 256 % p;
    DivMod(x, 256);
    DivMod(x / 256, p);
    MulDist(256, p * q, r);
    MulAssoc(256, p, q);
    DivModUnique(x, 256 * p, q, 256 * r + x % 256);
  }

  /** k bytes of x written in place, in either order. */
  method WriteBytes(dst: array<u8>, b: nat, x: int, k: nat, little: bool)
    requires b + k <= dst.Length
    modifies dst
    ensures HasBytes(dst[..], b, k, x, little)
    ensures forall a :: 0 <= a < dst.Length && !(b <= a < b + k) ==> dst[a] == old(dst[a])
  {
    hide Byte;
    for i := 0 to k
      invariant forall a :: b <= a < b + i ==> dst[a] == Byte(x, if little then a - b else b + k - 1 - a)
      invariant forall a :: 0 <= a < dst.Length && !(b <= a < b + i) ==> dst[a] == old(dst[a])
    {
      var byte := Byte(x, if little then i else k - 1 - i);
      ByteIsByte(x, if little then i else k - 1 - i);
      dst[b + i] := byte;
    }
  }

  lemma ByteIsByte(x: int, i: nat)
    ensures 0 <= Byte(x, i) < 256
  {
    hide Pow;
  }

  /** Bytes outside an aligned field keep their bits. */
  lemma BytesOnly(was: seq<u8>, s: seq<u8>, b: nat, k: nat)
    requires |s| == |was| && forall a :: 0 <= a < |s| && !(b <= a < b + k) ==> s[a] == was[a]
    ensures OnlyField(was, s, 8 * b, 8 * k)
  {
    hide Bit;
  }

  /** The bytes of a number swapped, as the loop before unaligned writing does it. */
  method SwapBytes(x: int, k: nat) returns (r: int)
    ensures r == Rev(x, k)
  {
    hide Rev, Byte, Pow;
    r := 0;
    NoRev(x);
    for i := 0 to k
      invariant r == Rev(x, i)
    {
      RevTail(x, i);
      r := 256 * r + Byte(x, i);
    }
  }

  /** The same in a 64-bit word, from which bytes leave at the top. */
  method SwapWord(x: int, k: nat) returns (r: int)
    ensures r == Rev(x, k) % TwoTo(64)
  {
    hide Rev, Byte, TwoTo;
    r := 0;
    NoRev(x);
    DivModUnique(0, TwoTo(64), 0, 0);
    for i := 0 to k
      invariant r == Rev(x, i) % TwoTo(64)
    {
      RevTail(x, i);
      PushedOut(Rev(x, i), Byte(x, i), TwoTo(64));
      r := (256 * r + Byte(x, i)) % TwoTo(64);
    }
  }

  lemma PushedOut(x: int, b: int, m: int)
    requires m > 0
    ensures (256 * (x % m) + b) % m == (256 * x + b) % m
  {
    var y := 256 * (x % m) + b;
    DivMod(x, m);
    DivMod(y, m);
    MulDist(m, 256 * (x / m), y / m);
    MulAssoc(m, 256, x / m);
    MulAssoc(256, m, x / m);
    DivModUnique(256 * x + b, m, 256 * (x / m) + y / m, y % m);
  }

  /** Bits of a longer field before its last 64. */
  lemma LongField(was: seq<u8>, s: seq<u8>, off: nat, n: nat)
    requires off + n <= 8 * |was| && n > 64 && Zeroed(was, off, n) && OnlyField(was, s, off + n - 64, 64)
    ensures OnlyField(was, s, off, n) && Field(s, off, n) == Field(s, off + n - 64, 64)
  {
    hide BitAt, TwoTo, Bit;
    forall a | off <= a < off + (n - 64) ensures BitAt(s, a) == Bit(0, off + (n - 64) - 1 - a) {
      assert BitAt(was, a) == 0;
      BitOfZero(off + (n - 64) - 1 - a);
    }
    assert HasBits(s, off, n - 64, 0);
    FieldOfBits(s, off, n - 64, 0);
    DivModUnique(0, TwoTo(n - 64), 0, 0);
    FieldSplit(s, off, n - 64, 64);
  }

  lemma BitOfZero(k: nat)
    ensures Bit(0, k) == 0
  {
    hide Pow;
    DivModUnique(0, Pow(2, k), 0, 0);
  }

  lemma ZeroedPart(s: seq<u8>, off: nat, n: nat, skip: nat)
    requires off + n <= 8 * |s| && skip <= n && Zeroed(s, off, n)
    ensures Zeroed(s, off + skip, n - skip)
  {
    hide BitAt;
  }

  /** bitstring_insert_any_integer */
  method InsertAny(dst: array<u8>, off: nat, value: int, n: nat, little: bool)
    requires off + n <= 8 * dst.Length && Zeroed(dst[..], off, n)
    modifies dst
    ensures OnlyField(old(dst[..]), dst[..], off, n)
    ensures Field(dst[..], off, n) == Encoded(value, n, little, off % 8 == 0)
  {
    hide BitAt, Field, Rev, TwoTo, OnlyField, Zeroed, HasBytes;
    if little && off % 8 == 0 && n % 8 == 0 {
      WriteBytes(dst, off / 8, Word(value), n / 8, true);
      LittleField(dst[..], off / 8, n / 8, Word(value));
      BytesOnly(old(dst[..]), dst[..], off / 8, n / 8);
      return;
    }
    var w := Word(value);
    if little {
      w := SwapWord(w, (n + 7) / 8);
      CutTwice(Rev(Word(value), (n + 7) / 8), 64, Min(n, 64));
    }
    if n > 64 {
      ZeroedPart(dst[..], off, n, n - 64);
      InsertBits(dst, off + (n - 64), w, 64);
      LongField(old(dst[..]), dst[..], off, n);
    } else {
      InsertBits(dst, off, w, n);
    }
  }

  // ---- the aligned fast paths ----

  /** The unaligned reads of utils.h: k bytes in either order. */
  method ReadBytes(src: seq<u8>, b: nat, k: nat, little: bool) returns (x: int)
    requires b + k <= |src|
    ensures x == if little then Rev(Field(src, 8 * b, 8 * k), k) else Field(src, 8 * b, 8 * k)
  {
    hide BitAt, Field, Rev;
    x := 0;
    NoField(src, 8 * b);
    var i := 0;
    while i < k
      invariant 0 <= i <= k && x == Field(src, 8 * b, 8 * i)
    {
      FieldByte(src, b, i + 1);
      x := 256 * x + src[b + i];
      i := i + 1;
    }
    if little { x := SwapBytes(x, k); }
  }

  datatype Extracted = NoRoom | Undefined | Extracted(value: int)

  /** bitstring_extract_integer: the fast paths read what the loop reads, and are defined for
      64 bits of any sign. */
  method ExtractInteger(src: seq<u8>, off: nat, n: nat, little: bool, signed: bool) returns (r: Extracted)
    requires off <= 8 * |src| && n <= 64
    ensures r == if off + n > 8 * |src| then NoRoom
                 else if !(n == 64 && off % 8 == 0) && ShiftsTooFar(Field(src, off, n), n, little, signed)
                 then Undefined
                 else Extracted(Decoded(Field(src, off, n), n, little, signed))
  {
    hide BitAt, Field, Rev, TwoTo;
    if 8 * |src| - off < n { return NoRoom; }
    if off % 8 == 0 && n in {8, 16, 32, 64} {
      var out := ReadBytes(src, off / 8, n / 8, little);
      r := Extracted(if signed && 2 * out >= TwoTo(n) then out - TwoTo(n) else out);
      if little {
        FieldBound(src, off, n);
        BytePower(n / 8);
        SwapDown(Field(src, off, n), n / 8);
      }
    } else {
      var skip := off / 8;
      ShiftedField(src, skip, off % 8, n);
      var any := ExtractAny(src[skip..], off % 8, n, little, signed);
      r := if any.None? then Undefined else Extracted(any.value);
    }
  }

  /** Reading from a later byte on. */
  lemma {:induction false} ShiftedField(src: seq<u8>, skip: nat, off: nat, n: nat)
    requires skip <= |src| && off + n <= 8 * (|src| - skip)
    ensures Field(src[skip..], off, n) == Field(src, 8 * skip + off, n)
  {
    hide BitAt;
    if n > 0 {
      ShiftedField(src, skip, off, n - 1);
      ShiftedBit(src, skip, off + n - 1);
    }
  }

  lemma ShiftedBit(src: seq<u8>, skip: nat, a: nat)
    requires skip <= |src| && a < 8 * (|src| - skip)
    ensures BitAt(src[skip..], a) == BitAt(src, 8 * skip + a)
  {
    hide Bit;
    assert (8 * skip + a) / 8 == skip + a / 8 && (8 * skip + a) % 8 == a % 8;
  }

  /** bitstring_insert_integer: the fast paths write what the loops write. */
  method InsertInteger(dst: array<u8>, off: nat, value: int, n: nat, little: bool) returns (ok: bool)
    requires off <= 8 * dst.Length && (off + n <= 8 * dst.Length ==> Zeroed(dst[..], off, n))
    modifies dst
    ensures ok <==> off + n <= 8 * dst.Length
    ensures ok ==> OnlyField(old(dst[..]), dst[..], off, n)
    ensures ok ==> Field(dst[..], off, n) == Encoded(value, n, little, off % 8 == 0)
    ensures !ok ==> dst[..] == old(dst[..])
  {
    hide BitAt, Field, Rev, TwoTo, OnlyField, Zeroed, HasBytes, Encoded;
    if 8 * dst.Length - off < n { return false; }
    ok := true;
    if off % 8 == 0 && n in {8, 16, 32, 64} {
      EncodedShort(value, n, little, true);
      WriteBytes(dst, off / 8, value, n / 8, little);
      BytesOnly(old(dst[..]), dst[..], off / 8, n / 8);
      if little {
        LittleField(dst[..], off / 8, n / 8, value);
      } else {
        BigField(dst[..], off / 8, n / 8, value);
        BytePower(n / 8);
      }
    } else {
      InsertAny(dst, off, value, n, little);
    }
  }

  // ---- copying bits ----

  lemma {:induction false} AndAtMost(x: nat, y: int)
    ensures 0 <= BitOp(And, x, y) <= x
    decreases x
  {
    if x == 0 { AndZero(y); } else { AndAtMost(x / 2, y / 2); }
  }

  /** A byte with one bit set or masked out. */
  function Put(b: u8, k: nat, bit: int): (r: u8)
    requires k < 8
  {
    PutRange(b, k);
    if bit == 1 then BitOp(Or, b, Pow(2, k)) else BitOp(And, b, -1 - Pow(2, k))
  }

  lemma PutRange(b: u8, k: nat)
    requires k < 8
    ensures 0 <= BitOp(Or, b, Pow(2, k)) < 256 && 0 <= BitOp(And, b, -1 - Pow(2, k)) < 256
  {
    assert Pow(2, 7) == 128 && Pow(2, 8) == 256;
    PowMono(2, k, 7);
    BitOpRange(Or, b, Pow(2, k), 8);
    AndAtMost(b, -1 - Pow(2, k));
  }

  lemma PutBit(b: u8, k: nat, bit: int, j: nat)
    requires k < 8 && 0 <= bit <= 1
    ensures Bit(Put(b, k, bit), j) == if j == k then bit else Bit(b, j)
  {
    hide BitOp, Pow;
    BitOpBit(Or, b, Pow(2, k), j);
    BitOpBit(And, b, -1 - Pow(2, k), j);
    NotBit(Pow(2, k), j);
    PowBit(k, j);
    BitRange(b, j);
  }

  lemma BitRange(x: int, k: nat)
    ensures 0 <= Bit(x, k) <= 1
  {}

  /** n bits of src from position from on are in s at off, and all else is as it was. */
  ghost predicate Copied(was: seq<u8>, s: seq<u8>, off: nat, src: seq<u8>, from: nat, n: nat) {
    |s| == |was| && off + n <= 8 * |s| && from + n <= 8 * |src| &&
    forall a :: 0 <= a < 8 * |s| ==>
      BitAt(s, a) == if off <= a < off + n then BitAt(src, from + a - off) else BitAt(was, a)
  }

  lemma NothingCopied(was: seq<u8>, off: nat, src: seq<u8>, from: nat)
    requires off <= 8 * |was| && from <= 8 * |src|
    ensures Copied(was, was, off, src, from, 0)
  {
    hide BitAt;
  }

  /** One bit more, at bit k of byte d. */
  lemma CopyOneBit(was: seq<u8>, s: seq<u8>, off: nat, src: seq<u8>, from: nat, i: nat, d: nat, k: nat, b: nat, m: nat)
    requires Copied(was, s, off, src, from, i) && d < |s| && b < |src| && k < 8 && m < 8
    requires off + i == 8 * d + 7 - k && from + i == 8 * b + 7 - m
    ensures Copied(was, s[d := Put(s[d], k, Bit(src[b], m))], off, src, from, i + 1)
  {
    hide Bit, Put;
    var bit := Bit(src[b], m);
    var t := s[d := Put(s[d], k, bit)];
    assert BitAt(src, from + i) == bit;
    BitRange(src[b], m);
    forall a | 0 <= a < 8 * |s|
      ensures BitAt(t, a) == if off <= a < off + i + 1 then BitAt(src, from + a - off) else BitAt(was, a)
    {
      if a / 8 == d { PutBit(s[d], k, bit, 7 - a % 8); }
      assert BitAt(t, a) == if a == off + i then bit else BitAt(s, a);
    }
  }

  /** The loop of bitstring_copy_bits_incomplete_bytes: it reads the byte behind the last bit
      on both sides, and writes that of dst back; false if memory ends before. */
  method CopyLoop(dst: array<u8>, d0: nat, bitOff: nat, src: seq<u8>, b0: nat, n: nat) returns (ok: bool)
    requires bitOff < 8
    modifies dst
    ensures ok <==> (8 * d0 + bitOff + n) / 8 < dst.Length && b0 + n / 8 < |src|
    ensures ok ==> Copied(old(dst[..]), dst[..], 8 * d0 + bitOff, src, 8 * b0, n)
  {
    hide Bit, BitAt, Put, Copied;
    ghost var was, off := dst[..], 8 * d0 + bitOff;
    var d, b := d0, b0;
    if d >= dst.Length || b >= |src| { return false; }
    NothingCopied(was, off, src, 8 * b0);
    var destByte, srcByte := dst[d], src[b];
    var destIx, srcIx := 7 - bitOff, 7;
    ghost var s := was;
    for i := 0 to n
      invariant 0 <= destIx < 8 && 0 <= srcIx < 8 && off + i == 8 * d + 7 - destIx && 8 * b0 + i == 8 * b + 7 - srcIx
      invariant d < dst.Length && b < |src| && srcByte == src[b]
      invariant |s| == dst.Length && s == dst[..][d := destByte] && Copied(was, s, off, src, 8 * b0, i)
    {
      CopyOneBit(was, s, off, src, 8 * b0, i, d, destIx, b, srcIx);
      destByte := Put(destByte, destIx, Bit(srcByte, srcIx));
      s := s[d := destByte];
      if destIx == 0 {
        dst[d] := destByte;
        d := d + 1;
        if d >= dst.Length { return false; }
        destByte := dst[d];
        destIx := 8;
      }
      if srcIx == 0 {
        b := b + 1;
        if b >= |src| { return false; }
        srcByte := src[b];
        srcIx := 8;
      }
      destIx, srcIx := destIx - 1, srcIx - 1;
    }
    dst[d] := destByte;
    assert dst[..] == s;
    ok := true;
  }

  /** memcpy of whole bytes. */
  method CopyBytes(dst: array<u8>, at: nat, src: seq<u8>, count: nat)
    requires at + count <= dst.Length && count <= |src|
    modifies dst
    ensures Copied(old(dst[..]), dst[..], 8 * at, src, 0, 8 * count)
  {
    hide BitAt, Copied;
    for i := 0 to count
      invariant forall a :: 0 <= a < dst.Length ==> dst[a] == if at <= a < at + i then src[a - at] else old(dst[a])
    {
      dst[at + i] := src[i];
    }
    WholeBytes(old(dst[..]), dst[..], at, src, count);
  }

  lemma WholeBytes(was: seq<u8>, s: seq<u8>, at: nat, src: seq<u8>, count: nat)
    requires |s| == |was| && at + count <= |s| && count <= |src|
    requires forall a :: 0 <= a < |s| ==> s[a] == if at <= a < at + count then src[a - at] else was[a]
    ensures Copied(was, s, 8 * at, src, 0, 8 * count)
  {
    hide Bit;
    forall a | 0 <= a < 8 * |s|
      ensures BitAt(s, a) == if 8 * at <= a < 8 * at + 8 * count then BitAt(src, a - 8 * at) else BitAt(was, a)
    {
      if 8 * at <= a < 8 * at + 8 * count { assert (a - 8 * at) / 8 == a / 8 - at && (a - 8 * at) % 8 == a % 8; }
    }
  }

  /** Bits copied behind bits copied. */
  lemma CopiedBoth(was: seq<u8>, s: seq<u8>, t: seq<u8>, off: nat, src: seq<u8>, m: nat, n: nat)
    requires Copied(was, s, off, src, 0, m) && Copied(s, t, off + m, src, m, n)
    ensures Copied(was, t, off, src, 0, m + n)
  {
    hide BitAt;
  }

  /** Copying touches a byte behind dst or src: anything but whole bytes to whole bytes does
      when its last bit is the last of a buffer. */
  predicate TouchesBeyond(dstLen: nat, off: nat, srcLen: nat, n: nat) {
    (off % 8 != 0 || n % 8 != 0) && (dstLen <= (off + n) / 8 || srcLen <= n / 8)
  }

  /** Within both buffers that is so exactly if the bits end with one of them; four bits into
      the second half of a one-byte buffer are such a case. */
  lemma CopyReadsOn(dstLen: nat, off: nat, srcLen: nat, n: nat)
    requires off + n <= 8 * dstLen && n <= 8 * srcLen
    ensures TouchesBeyond(dstLen, off, srcLen, n) <==>
              (off % 8 != 0 || n % 8 != 0) && (off + n == 8 * dstLen || n == 8 * srcLen)
    ensures TouchesBeyond(1, 4, 1, 4)
  {}

  /** bitstring_copy_bits: the bits of src are in place, every other bit is as it was, and
      both paths do the same; false if a byte behind the buffers is touched. */
  method CopyBits(dst: array<u8>, off: nat, src: seq<u8>, n: nat) returns (ok: bool)
    requires off + n <= 8 * dst.Length && n <= 8 * |src|
    modifies dst
    ensures ok <==> !TouchesBeyond(dst.Length, off, |src|, n)
    ensures ok ==> Copied(old(dst[..]), dst[..], off, src, 0, n)
  {
    hide BitAt, Copied;
    if off % 8 == 0 && n % 8 == 0 {
      CopyBytes(dst, off / 8, src, n / 8);
      return true;
    }
    var at, b, left := off / 8, 0, n;
    NothingCopied(dst[..], off, src, 0);
    if off % 8 == 0 && n >= 8 {
      var count := n / 8;
      CopyBytes(dst, at, src, count);
      at, b, left := at + count, count, left - 8 * count;
    }
    ghost var s := dst[..];
    ok := CopyLoop(dst, at, off % 8, src, b, left);
    if ok { CopiedBoth(old(dst[..]), s, dst[..], off, src, 8 * b, left); }
  }
}
