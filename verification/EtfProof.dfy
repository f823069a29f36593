/** Serializing and parsing are inverse, and the validator agrees with both. */
module EtfProof {
  import opened Prelude
  import opened Digits
  import opened IntnBytes
  import opened Etf

  // ---- numbers ----

  lemma {:induction false} BigRead(n: nat, w: nat)
    ensures ReadBig(Big(n, w)) == n % Pow(256, w)
  {
    if w > 0 {
      BigRead(n / 256, w - 1);
      var s := Big(n, w);
      assert s[..w - 1] == Big(n / 256, w - 1) && s[w - 1] == n % 256;
      var p: int := Pow(256, w - 1);
      hide *;
      CutLow(n, p);
    }
  }

  lemma CutLow(n: nat, p: int)
    requires p > 0
    ensures n / 256 % p * 256 + n % 256 == n % (256 * p)
  {
    var q, r := n / 256 / p, n / 256 % p;
    DivMod(n, 256);
    DivMod(n / 256, p);
    assert n == 256 * (p * q + r) + n % 256;
    MulDist(256, p * q, r);
    MulAssoc(256, p, q);
    DivModUnique(n, 256 * p, q, 256 * r + n % 256);
  }

  /** The widths the format uses. */
  lemma BigReads(n: nat)
    ensures ReadBig(Big(n, 1)) == n % 256
    ensures ReadBig(Big(n, 2)) == n % 0x1_0000
    ensures ReadBig(Big(n, 4)) == n % 0x1_0000_0000
    ensures ReadBig(Big(n, 8)) == n % 0x1_0000_0000_0000_0000
  {
    BigRead(n, 1); BigRead(n, 2); BigRead(n, 4); BigRead(n, 8);
    assert Pow(256, 1) == 256 && Pow(256, 2) == 0x1_0000;
    PowAdd(256, 2, 2); PowAdd(256, 4, 4);
    hide *;
  }

  /** The digits a magnitude has, from the bytes it has. */
  lemma {:induction false} DigitsFromBytes(m: nat)
    ensures Digits32(m) == (NumBytes(m) + 3) / 4
  {
    if m > 0 {
      var q := m / 0x1_0000_0000;
      DigitsFromBytes(q);
      FourBytes(m);
    }
  }

  lemma FourBytes(m: nat)
    requires m > 0
    ensures NumBytes(m / 0x1_0000_0000) > 0 ==> NumBytes(m) == 4 + NumBytes(m / 0x1_0000_0000)
    ensures NumBytes(m / 0x1_0000_0000) == 0 ==> 1 <= NumBytes(m) <= 4
  {
    var a := m / 256; var b := a / 256; var c := b / 256; var d := c / 256;
    assert d == m / 0x1_0000_0000;
    assert NumBytes(m) == 1 + NumBytes(a);
    assert NumBytes(a) == if a == 0 then 0 else 1 + NumBytes(b);
    assert NumBytes(b) == if b == 0 then 0 else 1 + NumBytes(c);
    assert NumBytes(c) == if c == 0 then 0 else 1 + NumBytes(d);
  }

  // ---- the size pass ----

  lemma {:induction false} SizeIsLength(t: Term)
    ensures |Encode(t)| == Size(t) >= 1
  {
    match t
    case Int(v) => LittleVal(Abs(v));
    case Tuple(elems) => SizesAreLengths(elems);
    case List(items, tail) =>
      if !IsString(items, tail) { SizesAreLengths(items); SizeIsLength(tail); }
    case Map(entries) => SizesAreLengths(entries);
    case _ =>
  }

  lemma {:induction false} SizesAreLengths(ts: seq<Term>)
    ensures |EncodeAll(ts)| == SizeAll(ts) >= |ts|
  {
    if |ts| > 0 { SizeIsLength(ts[0]); SizesAreLengths(ts[1..]); }
  }

  // ---- terms ----

  /** A term as the virtual machine builds it, with counts that fit an int. */
  ghost predicate WellFormed(env: Env, t: Term) {
    match t
    case Int(v) => Abs(v) < Pow(256, 32)
    case Float(bits) => bits < 0x1_0000_0000_0000_0000
    case Atom(name) => env.utf8(name) && |name| < 0x1_0000
    case Tuple(elems) => |elems| < 0x8000_0000 && AllWellFormed(env, elems)
    case Nil => true
    case List(items, tail) =>
      0 < |items| < 0x8000_0000 && !tail.List? && AllWellFormed(env, items) && WellFormed(env, tail)
    case Binary(data) => |data| < 0x8000_0000
    case Map(entries) => |entries| % 2 == 0 && |entries| < 0x8000_0000 && AllWellFormed(env, entries)
  }

  ghost predicate AllWellFormed(env: Env, ts: seq<Term>) {
    |ts| > 0 ==> WellFormed(env, ts[0]) && AllWellFormed(env, ts[1..])
  }

  /** No list of bytes in the term is longer than a 16-bit count can say. */
  ghost predicate Encodable(t: Term) {
    match t
    case Tuple(elems) => AllEncodable(elems)
    case List(items, tail) =>
      if IsString(items, tail) then |items| < 0x1_0000 else AllEncodable(items) && Encodable(tail)
    case Map(entries) => AllEncodable(entries)
    case _ => true
  }

  ghost predicate AllEncodable(ts: seq<Term>) {
    |ts| > 0 ==> Encodable(ts[0]) && AllEncodable(ts[1..])
  }

  /** Heap words of a term. */
  function Words(env: Env, t: Term): nat {
    match t
    case Int(v) => if IsInt64(v) then BoxedIntWords(env.arch, v) else BigWords(env.arch, Digits32(Abs(v)))
    case Float(_) => FloatWords(env.arch)
    case Atom(_) => 0
    case Tuple(elems) => 1 + |elems| + WordsAll(env, elems)
    case Nil => 0
    case List(items, tail) => 2 * |items| + WordsAll(env, items) + Words(env, tail)
    case Binary(data) => BinaryWords(env, |data|)
    case Map(entries) => 3 + |entries| + WordsAll(env, entries)
  }

  function WordsAll(env: Env, ts: seq<Term>): nat {
    if |ts| == 0 then 0 else Words(env, ts[0]) + WordsAll(env, ts[1..])
  }

  // ---- memory ----

  ghost predicate Holds(mem: seq<u8>, pos: nat, bytes: seq<u8>) {
    pos + |bytes| <= |mem| && mem[pos..pos + |bytes|] == bytes
  }

  lemma HoldsSplit(mem: seq<u8>, pos: nat, a: seq<u8>, b: seq<u8>)
    requires Holds(mem, pos, a + b)
    ensures Holds(mem, pos, a) && Holds(mem, pos + |a|, b)
  {
    assert mem[pos..pos + |a|] == (a + b)[..|a|];
    assert mem[pos + |a|..pos + |a| + |b|] == (a + b)[|a|..];
  }

  lemma {:induction false} BytesAtMemory(mem: seq<u8>, pos: nat, n: nat)
    requires pos + n <= |mem|
    ensures BytesAt(mem, pos, n) == mem[pos..pos + n]
  {
    if n > 0 { BytesAtMemory(mem, pos, n - 1); }
  }

  // ---- parsing what was serialized ----

  lemma TagOf(mem: seq<u8>, pos: nat, bytes: seq<u8>)
    requires |bytes| > 0 && Holds(mem, pos, bytes)
    ensures pos < |mem| && mem[pos] == bytes[0]
  {
    assert mem[pos..pos + |bytes|][0] == bytes[0];
  }

  /** Tag and a count of w bytes, then the rest. */
  lemma Header(mem: seq<u8>, pos: nat, tag: u8, n: nat, w: nat, rest: seq<u8>)
    requires Holds(mem, pos, [tag] + Big(n, w) + rest)
    ensures pos + 1 + w <= |mem| && mem[pos] == tag && mem[pos + 1..pos + 1 + w] == Big(n, w)
    ensures Holds(mem, pos + 1 + w, rest)
  {
    hide Big;
    HoldsSplit(mem, pos, [tag] + Big(n, w), rest);
    HoldsSplit(mem, pos, [tag], Big(n, w));
    TagOf(mem, pos, [tag]);
  }

  /** Tag and one byte, then the rest. */
  lemma ShortHeader(mem: seq<u8>, pos: nat, tag: u8, n: u8, rest: seq<u8>)
    requires Holds(mem, pos, [tag, n] + rest)
    ensures pos + 2 <= |mem| && mem[pos] == tag && mem[pos + 1] == n && Holds(mem, pos + 2, rest)
  {
    HoldsSplit(mem, pos, [tag, n], rest);
    assert mem[pos..pos + 2][0] == tag && mem[pos..pos + 2][1] == n;
  }

  lemma IntRoundTrip(env: Env, v: int, mem: seq<u8>, pos: nat)
    requires Abs(v) < Pow(256, 32) && Holds(mem, pos, EncodeInt(v))
    ensures Parse(env, mem, pos) == Done(Int(v), |EncodeInt(v)|, Words(env, Int(v)))
  {
    hide Parse, Pow, Big, Little, Holds, Words;
    if 0 <= v < 256 {
      ByteRoundTrip(env, v, mem, pos);
    } else if IsInt32(v) {
      Int32RoundTrip(env, v, mem, pos);
    } else {
      BigIntRoundTrip(env, v, mem, pos);
    }
  }

  lemma ByteRoundTrip(env: Env, v: u8, mem: seq<u8>, pos: nat)
    requires Holds(mem, pos, [97, v])
    ensures Parse(env, mem, pos) == Done(Int(v), 2, Words(env, Int(v)))
  {
    hide ReadBig, ParseMany, BigTerm, AtomTerm, BinaryWords, Integers, Cells, FloatWords;
    assert [97, v] + [] == [97, v];
    ShortHeader(mem, pos, 97, v, []);
  }

  lemma ParseInt32(env: Env, mem: seq<u8>, pos: nat)
    requires pos + 5 <= |mem| && mem[pos] == 98
    ensures var n := ReadBig(mem[pos + 1..pos + 5]);
            var v := if n >= 0x8000_0000 then n - 0x1_0000_0000 else n;
            Parse(env, mem, pos) == Done(Int(v), 5, BoxedIntWords(env.arch, v))
  {
    hide ReadBig, ParseMany, BigTerm, AtomTerm, BinaryWords, Integers, Cells, FloatWords, BoxedIntWords, TupleOf;
  }

  lemma Int32Encoding(v: int)
    requires IsInt32(v) && !(0 <= v < 256)
    ensures EncodeInt(v) == [98] + Big(if v < 0 then v + 0x1_0000_0000 else v, 4) + [] && |EncodeInt(v)| == 5
  {
    hide Big, Little;
  }

  lemma Int32RoundTrip(env: Env, v: int, mem: seq<u8>, pos: nat)
    requires IsInt32(v) && !(0 <= v < 256) && Holds(mem, pos, EncodeInt(v))
    ensures Parse(env, mem, pos) == Done(Int(v), 5, Words(env, Int(v)))
  {
    hide Parse, Big, ReadBig, EncodeInt, BoxedIntWords, Holds;
    var n := if v < 0 then v + 0x1_0000_0000 else v;
    Int32Encoding(v);
    Header(mem, pos, 98, n, 4, []);
    ParseInt32(env, mem, pos);
    BigReads(n);
  }

  lemma ParseBig(env: Env, mem: seq<u8>, pos: nat, bytes: seq<u8>)
    requires pos + 3 + |bytes| <= |mem| && mem[pos] == 110 && mem[pos + 1] == |bytes|
    requires mem[pos + 3..pos + 3 + |bytes|] == bytes
    ensures Parse(env, mem, pos) == BigTerm(env.arch, mem[pos + 2] != 0, bytes)
  {
    hide ReadBig, ParseMany, BigTerm, AtomTerm, BinaryWords, Integers, Cells, FloatWords, BoxedIntWords, TupleOf;
  }

  lemma BigIntRoundTrip(env: Env, v: int, mem: seq<u8>, pos: nat)
    requires Abs(v) < Pow(256, 32) && !IsInt32(v) && Holds(mem, pos, EncodeInt(v))
    ensures Parse(env, mem, pos) == Done(Int(v), |EncodeInt(v)|, Words(env, Int(v)))
  {
    hide Pow, Parse, Little, Val, Digits32, BigWords, BoxedIntWords, Holds, EncodeInt, NumBytes;
    var bytes := Little(Abs(v));
    LittleVal(Abs(v));
    NumBytesBound(Abs(v), 32);
    BigParts(v, mem, pos);
    ParseBig(env, mem, pos, bytes);
  }

  lemma OneByte(n: nat)
    requires n < 256
    ensures Big(n, 1) == [n]
  {
    assert Big(n / 256, 0) == [];
  }

  lemma IntegersChars(items: seq<Term>)
    requires forall i :: 0 <= i < |items| ==> IsByte(items[i])
    ensures Integers(Chars(items)) == items
  {}

  lemma {:induction false} BytesHaveNoWords(env: Env, items: seq<Term>)
    requires forall i :: 0 <= i < |items| ==> IsByte(items[i])
    ensures WordsAll(env, items) == 0
  {
    if |items| > 0 { assert IsByte(items[0]); BytesHaveNoWords(env, items[1..]); }
  }

  lemma StringRoundTrip(env: Env, items: seq<Term>, mem: seq<u8>, pos: nat)
    requires 0 < |items| && IsString(items, Nil) && Holds(mem, pos, Encode(List(items, Nil)))
    ensures |items| < 0x1_0000 ==>
              Parse(env, mem, pos) == Done(List(items, Nil), |Encode(List(items, Nil))|, Words(env, List(items, Nil)))
    ensures |items| >= 0x1_0000 && Parse(env, mem, pos).Done? ==> Parse(env, mem, pos).value != List(items, Nil)
  {
    hide Big, ReadBig, Chars, WordsAll;
    Header(mem, pos, 107, |items|, 2, Chars(items));
    BigReads(|items|);
    IntegersChars(items);
    BytesHaveNoWords(env, items);
    if |items| < 0x1_0000 { assert mem[pos + 3..pos + 3 + |items|] == Chars(items); }
  }

  /** What parsing a container comes to. */
  lemma ParseTuple(env: Env, mem: seq<u8>, pos: nat, arity: nat, rest: seq<u8>)
    requires Holds(mem, pos, TupleHead(arity) + rest)
    ensures var h := |TupleHead(arity)|;
            Holds(mem, pos + h, rest)
            && Parse(env, mem, pos) == TupleOf(ParseMany(env, mem, pos + h, arity % 0x1_0000_0000), h)
  {
    hide Big, ReadBig, ParseMany, TupleOf;
    if arity < 256 {
      ShortHeader(mem, pos, 104, arity, rest);
    } else {
      Header(mem, pos, 105, arity, 4, rest);
      BigReads(arity);
    }
  }

  function ListOf(n: nat, items: Outcome<seq<Term>>, tail: Outcome<Term>): Outcome<Term> {
    if !items.Done? then (if items.Invalid? then Invalid else Undefined)
    else if n == 0 then Done(Nil, 5, 0)
    else if !tail.Done? then tail
    else Done(Cells(items.value, tail.value), 5 + items.size + tail.size, items.words + 2 * n + tail.words)
  }

  lemma ParseList(env: Env, mem: seq<u8>, pos: nat, n: nat, rest: seq<u8>)
    requires Holds(mem, pos, [108] + Big(n, 4) + rest)
    ensures var items := ParseMany(env, mem, pos + 5, n % 0x1_0000_0000);
            Holds(mem, pos + 5, rest)
            && Parse(env, mem, pos) ==
               ListOf(n % 0x1_0000_0000, items,
                 if items.Done? then Parse(env, mem, pos + 5 + items.size) else Undefined)
  {
    hide Big, ReadBig, ParseMany, Cells;
    Header(mem, pos, 108, n, 4, rest);
    BigReads(n);
  }

  function MapOf(n: nat, entries: Outcome<seq<Term>>): Outcome<Term> {
    if !entries.Done? then (if entries.Invalid? then Invalid else Undefined)
    else Done(Map(entries.value), 5 + entries.size, entries.words + 3 + 2 * n)
  }

  lemma ParseMap(env: Env, mem: seq<u8>, pos: nat, n: nat, rest: seq<u8>)
    requires Holds(mem, pos, [116] + Big(n, 4) + rest)
    ensures Holds(mem, pos + 5, rest)
    ensures Parse(env, mem, pos) ==
            MapOf(n % 0x1_0000_0000, ParseMany(env, mem, pos + 5, 2 * (n % 0x1_0000_0000)))
  {
    hide Big, ReadBig, ParseMany;
    Header(mem, pos, 116, n, 4, rest);
    BigReads(n);
  }

  lemma FloatRoundTrip(env: Env, bits: nat, mem: seq<u8>, pos: nat)
    requires bits < 0x1_0000_0000_0000_0000 && Holds(mem, pos, Encode(Float(bits)))
    ensures Parse(env, mem, pos) == Done(Float(bits), 9, FloatWords(env.arch))
  {
    hide Big, ReadBig;
    assert Encode(Float(bits)) == [70] + Big(bits, 8) + [];
    Header(mem, pos, 70, bits, 8, []);
    BigReads(bits);
  }

  /** Parsing the bytes of a term gives the term, its length and its heap words. */
  lemma {:induction false} RoundTrip(env: Env, t: Term, mem: seq<u8>, pos: nat)
    requires WellFormed(env, t) && Encodable(t) && Holds(mem, pos, Encode(t))
    ensures Parse(env, mem, pos) == Done(t, |Encode(t)|, Words(env, t))
    decreases t, 1
  {
    hide Parse, ParseMany, EncodeInt, Chars, Holds, EncodeAll, BinaryWords, Digits32, Big, WordsAll, AllWellFormed,
      AllEncodable;
    match t
    case Int(v) => IntRoundTrip(env, v, mem, pos);
    case Float(bits) => FloatRoundTrip(env, bits, mem, pos);
    case Atom(name) => AtomRoundTrip(env, name, mem, pos);
    case Tuple(_) => TupleRoundTrip(env, t, mem, pos);
    case Nil => NilRoundTrip(env, mem, pos);
    case List(items, tail) =>
      if IsString(items, tail) { StringRoundTrip(env, items, mem, pos); } else { ListRoundTrip(env, t, mem, pos); }
    case Binary(data) => BinaryRoundTrip(env, data, mem, pos);
    case Map(_) => MapRoundTrip(env, t, mem, pos);
  }

  lemma {:induction false} TupleRoundTrip(env: Env, t: Term, mem: seq<u8>, pos: nat)
    requires t.Tuple? && WellFormed(env, t) && Encodable(t) && Holds(mem, pos, Encode(t))
    ensures Parse(env, mem, pos) == Done(t, |Encode(t)|, Words(env, t))
    decreases t, 0
  {
    hide Parse, ParseMany, Holds, EncodeAll, WordsAll, AllWellFormed, AllEncodable;
    ParseTuple(env, mem, pos, |t.elems|, EncodeAll(t.elems));
    RoundTripAll(env, t.elems, mem, pos + |TupleHead(|t.elems|)|);
  }

  lemma ListFacts(env: Env, t: Term)
    requires t.List? && !IsString(t.items, t.tail) && WellFormed(env, t)
    ensures 0 < |t.items| < 0x8000_0000 && !t.tail.List? && AllWellFormed(env, t.items) && WellFormed(env, t.tail)
    ensures Encode(t) == [108] + Big(|t.items|, 4) + (EncodeAll(t.items) + Encode(t.tail))
    ensures Encodable(t) <==> AllEncodable(t.items) && Encodable(t.tail)
    ensures Words(env, t) == 2 * |t.items| + WordsAll(env, t.items) + Words(env, t.tail)
  {
    hide AllWellFormed, AllEncodable, WordsAll, EncodeAll, Big;
  }

  lemma {:induction false} ListRoundTrip(env: Env, t: Term, mem: seq<u8>, pos: nat)
    requires t.List? && !IsString(t.items, t.tail) && WellFormed(env, t) && Encodable(t) && Holds(mem, pos, Encode(t))
    ensures Parse(env, mem, pos) == Done(t, |Encode(t)|, Words(env, t))
    decreases t, 0
  {
    hide Parse, ParseMany, Holds, Encode, EncodeAll, Words, WordsAll, WellFormed, AllWellFormed, Encodable,
      AllEncodable, IsString, Big;
    var items, tail := t.items, t.tail;
    ListFacts(env, t);
    ParseList(env, mem, pos, |items|, EncodeAll(items) + Encode(tail));
    HoldsSplit(mem, pos + 5, EncodeAll(items), Encode(tail));
    RoundTripAll(env, items, mem, pos + 5);
    RoundTrip(env, tail, mem, pos + 5 + |EncodeAll(items)|);
  }

  lemma {:induction false} MapRoundTrip(env: Env, t: Term, mem: seq<u8>, pos: nat)
    requires t.Map? && WellFormed(env, t) && Encodable(t) && Holds(mem, pos, Encode(t))
    ensures Parse(env, mem, pos) == Done(t, |Encode(t)|, Words(env, t))
    decreases t, 0
  {
    hide Parse, ParseMany, Holds, EncodeAll, WordsAll, AllWellFormed, AllEncodable, Big;
    ParseMap(env, mem, pos, |t.entries| / 2, EncodeAll(t.entries));
    RoundTripAll(env, t.entries, mem, pos + 5);
  }

  lemma {:induction false} RoundTripAll(env: Env, ts: seq<Term>, mem: seq<u8>, pos: nat)
    requires AllWellFormed(env, ts) && AllEncodable(ts) && Holds(mem, pos, EncodeAll(ts))
    ensures ParseMany(env, mem, pos, |ts|) == Done(ts, |EncodeAll(ts)|, WordsAll(env, ts))
    decreases ts
  {
    hide Parse, ParseMany, Encode, EncodeAll, Holds, Words, WordsAll, WellFormed, AllWellFormed, Encodable,
      AllEncodable;
    if |ts| > 0 {
      FirstFacts(env, ts);
      HoldsSplit(mem, pos, Encode(ts[0]), EncodeAll(ts[1..]));
      RoundTrip(env, ts[0], mem, pos);
      RoundTripAll(env, ts[1..], mem, pos + |Encode(ts[0])|);
      ParseManyFirst(env, mem, pos, |ts| - 1);
      assert [ts[0]] + ts[1..] == ts;
    } else {
      NoTerms(env, ts, mem, pos);
    }
  }

  lemma NoTerms(env: Env, ts: seq<Term>, mem: seq<u8>, pos: nat)
    requires |ts| == 0
    ensures ParseMany(env, mem, pos, 0) == Done(ts, |EncodeAll(ts)|, WordsAll(env, ts))
  {}

  lemma FirstFacts(env: Env, ts: seq<Term>)
    requires |ts| > 0
    ensures AllWellFormed(env, ts) <==> WellFormed(env, ts[0]) && AllWellFormed(env, ts[1..])
    ensures AllEncodable(ts) <==> Encodable(ts[0]) && AllEncodable(ts[1..])
    ensures EncodeAll(ts) == Encode(ts[0]) + EncodeAll(ts[1..])
    ensures WordsAll(env, ts) == Words(env, ts[0]) + WordsAll(env, ts[1..])
  {
    hide Encode, Words, WellFormed, Encodable;
  }

  lemma ParseManyFirst(env: Env, mem: seq<u8>, pos: nat, n: nat)
    requires Parse(env, mem, pos).Done?
    requires ParseMany(env, mem, pos + Parse(env, mem, pos).size, n).Done?
    ensures var one := Parse(env, mem, pos); var rest := ParseMany(env, mem, pos + one.size, n);
            ParseMany(env, mem, pos, n + 1) ==
            Done([one.value] + rest.value, one.size + rest.size, one.words + rest.words)
  {
    hide Parse;
  }

  lemma NilRoundTrip(env: Env, mem: seq<u8>, pos: nat)
    requires Holds(mem, pos, [106])
    ensures Parse(env, mem, pos) == Done(Nil, 1, 0)
  {
    TagOf(mem, pos, [106]);
  }

  lemma AtomRoundTrip(env: Env, name: seq<u8>, mem: seq<u8>, pos: nat)
    requires env.utf8(name) && |name| < 0x1_0000 && Holds(mem, pos, Encode(Atom(name)))
    ensures Parse(env, mem, pos) == Done(Atom(name), |Encode(Atom(name))|, 0)
  {
    hide Big, ReadBig;
    if |name| >= 256 {
      Header(mem, pos, 118, |name|, 2, name);
      BigReads(|name|);
    } else {
      ShortHeader(mem, pos, 119, |name|, name);
    }
  }

  lemma BinaryRoundTrip(env: Env, data: seq<u8>, mem: seq<u8>, pos: nat)
    requires |data| < 0x1_0000_0000 && Holds(mem, pos, Encode(Binary(data)))
    ensures Parse(env, mem, pos) == Done(Binary(data), |Encode(Binary(data))|, BinaryWords(env, |data|))
  {
    hide Big, ReadBig, BinaryWords;
    Header(mem, pos, 109, |data|, 4, data);
    BigReads(|data|);
  }

  // ---- only what fits comes back ----

  /** The converse: a term that comes back has no byte list too long for its count. */
  lemma {:induction false} OnlyEncodable(env: Env, t: Term, mem: seq<u8>, pos: nat)
    requires WellFormed(env, t) && Holds(mem, pos, Encode(t))
    requires Parse(env, mem, pos).Done? && Parse(env, mem, pos).value == t
    ensures Encodable(t)
    decreases t, 1
  {
    hide Parse, ParseMany, EncodeInt, Chars, Holds, EncodeAll, Big, AllWellFormed, AllEncodable;
    match t
    case Tuple(elems) =>
      ParseTuple(env, mem, pos, |elems|, EncodeAll(elems));
      OnlyAllEncodable(env, elems, mem, pos + |TupleHead(|elems|)|);
    case List(items, tail) =>
      if IsString(items, tail) { StringRoundTrip(env, items, mem, pos); } else { OnlyEncodableList(env, t, mem, pos); }
    case Map(entries) =>
      ParseMap(env, mem, pos, |entries| / 2, EncodeAll(entries));
      OnlyAllEncodable(env, entries, mem, pos + 5);
    case _ =>
  }

  lemma {:induction false} OnlyEncodableList(env: Env, t: Term, mem: seq<u8>, pos: nat)
    requires t.List? && !IsString(t.items, t.tail) && WellFormed(env, t) && Holds(mem, pos, Encode(t))
    requires Parse(env, mem, pos).Done? && Parse(env, mem, pos).value == t
    ensures Encodable(t)
    decreases t, 0
  {
    hide Parse, ParseMany, Holds, Encode, EncodeAll, Words, WordsAll, WellFormed, AllWellFormed, Encodable,
      AllEncodable, IsString, Big;
    var items, tail := t.items, t.tail;
    ListFacts(env, t);
    ParseList(env, mem, pos, |items|, EncodeAll(items) + Encode(tail));
    HoldsSplit(mem, pos + 5, EncodeAll(items), Encode(tail));
    var r := ParseMany(env, mem, pos + 5, |items|);
    var last := Parse(env, mem, pos + 5 + r.size).value;
    assert Cells(r.value, last) == t;
    assert r.value == items && last == tail;
    OnlyAllEncodable(env, items, mem, pos + 5);
    RoundTripAll(env, items, mem, pos + 5);
    OnlyEncodable(env, tail, mem, pos + 5 + |EncodeAll(items)|);
  }

  lemma {:induction false} OnlyAllEncodable(env: Env, ts: seq<Term>, mem: seq<u8>, pos: nat)
    requires AllWellFormed(env, ts) && Holds(mem, pos, EncodeAll(ts))
    requires ParseMany(env, mem, pos, |ts|).Done? && ParseMany(env, mem, pos, |ts|).value == ts
    ensures AllEncodable(ts)
    decreases ts
  {
    hide Parse, Encode, Holds, Words, WellFormed, Encodable;
    if |ts| > 0 {
      HoldsSplit(mem, pos, Encode(ts[0]), EncodeAll(ts[1..]));
      var r := Parse(env, mem, pos);
      var rest := ParseMany(env, mem, pos + r.size, |ts| - 1);
      var first, others := r.value, rest.value;
      assert ts == [first] + others;
      assert others == ts[1..];
      OnlyEncodable(env, ts[0], mem, pos);
      RoundTrip(env, ts[0], mem, pos);
      OnlyAllEncodable(env, ts[1..], mem, pos + |Encode(ts[0])|);
    }
  }

  // ---- the validator ----

  lemma {:induction false} BytesWellFormed(env: Env, ts: seq<Term>)
    requires forall i :: 0 <= i < |ts| ==> ts[i] == Int(0)
    ensures AllWellFormed(env, ts)
  {
    if |ts| > 0 {
      assert 0 < Pow(256, 32);
      hide Pow;
      BytesWellFormed(env, ts[1..]);
    }
  }

  /** What must be said to remain for the validator to accept the bytes of t. */
  function Needed(t: Term): nat {
    SizeIsLength(t);
    if t.Tuple? && |t.elems| < 256 then Size(t) - 1 else Size(t)
  }

  /** Accepted exactly with so many bytes, with that size and at least these words. */
  ghost predicate Accepts(c: Check, enough: bool, size: nat, words: nat) {
    && (c.Accept? <==> enough)
    && (c.Accept? ==> c.size == size && c.words >= words)
  }

  lemma ReadBack(mem: seq<u8>, pos: nat, tag: u8, n: nat, w: nat, rest: seq<u8>)
    requires Holds(mem, pos, [tag] + Big(n, w) + rest)
    ensures ByteAt(mem, pos) == tag && BytesAt(mem, pos + 1, w) == Big(n, w) && Holds(mem, pos + 1 + w, rest)
  {
    hide Big;
    Header(mem, pos, tag, n, w, rest);
    BytesAtMemory(mem, pos + 1, w);
  }

  lemma IntAccepted(env: Env, v: int, mem: seq<u8>, pos: nat, remaining: nat)
    requires Abs(v) < Pow(256, 32) && Holds(mem, pos, EncodeInt(v))
    ensures Accepts(Validate(env, mem, pos, remaining), remaining >= |EncodeInt(v)|, |EncodeInt(v)|, Words(env, Int(v)))
  {
    hide Pow, EncodeInt, Validate, Words, Holds, Accepts;
    if 0 <= v < 256 {
      ByteAccepted(env, v, mem, pos, remaining);
    } else if IsInt32(v) {
      Int32Accepted(env, v, mem, pos, remaining);
    } else {
      BigIntAccepted(env, v, mem, pos, remaining);
    }
  }

  lemma ByteAccepted(env: Env, v: int, mem: seq<u8>, pos: nat, remaining: nat)
    requires 0 <= v < 256 && Holds(mem, pos, EncodeInt(v))
    ensures Accepts(Validate(env, mem, pos, remaining), remaining >= |EncodeInt(v)|, |EncodeInt(v)|, Words(env, Int(v)))
  {
    hide Big, ReadBig, Little, Holds, ValidateMany, Val, Digits32, BytesAt;
    assert [97, v] + [] == [97, v];
    ShortHeader(mem, pos, 97, v, []);
  }

  lemma Int32Accepted(env: Env, v: int, mem: seq<u8>, pos: nat, remaining: nat)
    requires IsInt32(v) && !(0 <= v < 256) && Holds(mem, pos, EncodeInt(v))
    ensures Accepts(Validate(env, mem, pos, remaining), remaining >= |EncodeInt(v)|, |EncodeInt(v)|, Words(env, Int(v)))
  {
    hide Big, ReadBig, EncodeInt, Holds, ValidateMany, Val, Digits32, BytesAt;
    var n := if v < 0 then v + 0x1_0000_0000 else v;
    Int32Encoding(v);
    ReadBack(mem, pos, 98, n, 4, []);
    BigReads(n);
  }

  lemma ValidateBig(env: Env, mem: seq<u8>, pos: nat, remaining: nat, n: u8, sign: u8, bytes: seq<u8>)
    requires ByteAt(mem, pos) == 110 && ByteAt(mem, pos + 1) == n && ByteAt(mem, pos + 2) == sign
    requires BytesAt(mem, pos + 3, n) == bytes
    ensures var m := Val(bytes, 256);
            var v := if sign != 0 then -m else m;
            Validate(env, mem, pos, remaining) ==
              if remaining < n as int + 3 || n > 32 then Reject
              else Accept(n as int + 3,
                          if n <= 8 && IsInt64(v) then BoxedIntWords(env.arch, v)
                          else BigWords(env.arch, (n as int + 3) / 4))
  {
    hide ReadBig, ValidateMany, Val, BytesAt, ByteAt, BigWords, BoxedIntWords, BinaryWords, FloatWords, Plus;
  }

  lemma BigEncoding(v: int)
    requires !IsInt32(v)
    ensures var bytes := Little(Abs(v)); var sign := if v < 0 then 1 else 0;
            EncodeInt(v) == [110] + Big(|bytes|, 1) + ([sign] + bytes) && |EncodeInt(v)| == 3 + |bytes|
  {
    hide Big, Little;
  }

  /** The four parts of a big integer in memory. */
  lemma BigParts(v: int, mem: seq<u8>, pos: nat)
    requires !IsInt32(v) && |Little(Abs(v))| < 256 && Holds(mem, pos, EncodeInt(v))
    ensures var bytes := Little(Abs(v)); var sign := if v < 0 then 1 else 0;
            && pos + 3 + |bytes| <= |mem| && mem[pos] == 110 && mem[pos + 1] == |bytes| && mem[pos + 2] == sign
            && mem[pos + 3..pos + 3 + |bytes|] == bytes && |EncodeInt(v)| == 3 + |bytes|
  {
    hide Big, Little, EncodeInt;
    var bytes := Little(Abs(v));
    var sign := if v < 0 then 1 else 0;
    BigEncoding(v);
    Header(mem, pos, 110, |bytes|, 1, [sign] + bytes);
    HoldsSplit(mem, pos + 2, [sign], bytes);
    TagOf(mem, pos + 2, [sign]);
    OneByte(|bytes|);
    assert mem[pos + 1] == mem[pos + 1..pos + 2][0];
  }

  lemma BigIntAccepted(env: Env, v: int, mem: seq<u8>, pos: nat, remaining: nat)
    requires Abs(v) < Pow(256, 32) && !IsInt32(v) && Holds(mem, pos, EncodeInt(v))
    ensures Accepts(Validate(env, mem, pos, remaining), remaining >= |EncodeInt(v)|, |EncodeInt(v)|, Words(env, Int(v)))
  {
    hide Pow, Little, Validate, Val, Digits32, BytesAt, BigWords, BoxedIntWords, Holds, EncodeInt, NumBytes;
    var m := Abs(v);
    var bytes := Little(m);
    LittleVal(m);
    NumBytesBound(m, 32);
    NumBytesBound(m, 8);
    DigitsFromBytes(m);
    Pow256();
    BigParts(v, mem, pos);
    BytesAtMemory(mem, pos + 3, |bytes|);
    ValidateBig(env, mem, pos, remaining, |bytes|, if v < 0 then 1 else 0, bytes);
  }

  lemma Pow256()
    ensures Pow(256, 8) == 0x1_0000_0000_0000_0000
  {
    assert Pow(256, 2) == 0x1_0000;
    PowAdd(256, 2, 2);
    PowAdd(256, 4, 4);
    hide Pow;
  }

  lemma AtomAccepted(env: Env, name: seq<u8>, mem: seq<u8>, pos: nat, remaining: nat)
    requires |name| < 0x1_0000 && Holds(mem, pos, Encode(Atom(name)))
    ensures Accepts(Validate(env, mem, pos, remaining), remaining >= |Encode(Atom(name))|, |Encode(Atom(name))|, 0)
  {
    hide Big, ReadBig, BytesAt, ValidateMany, Holds;
    if |name| >= 256 {
      ReadBack(mem, pos, 118, |name|, 2, name);
      BigReads(|name|);
    } else {
      ShortHeader(mem, pos, 119, |name|, name);
    }
  }

  lemma BinaryAccepted(env: Env, data: seq<u8>, mem: seq<u8>, pos: nat, remaining: nat)
    requires |data| < 0x8000_0000 && Holds(mem, pos, Encode(Binary(data)))
    ensures Accepts(Validate(env, mem, pos, remaining), remaining >= 5 + |data|, 5 + |data|, BinaryWords(env, |data|))
  {
    hide Big, ReadBig, BytesAt, ValidateMany, Holds, BinaryWords;
    ReadBack(mem, pos, 109, |data|, 4, data);
    BigReads(|data|);
  }

  lemma FloatAccepted(env: Env, bits: nat, mem: seq<u8>, pos: nat, remaining: nat)
    requires Holds(mem, pos, Encode(Float(bits)))
    ensures Accepts(Validate(env, mem, pos, remaining), remaining >= 9, 9, FloatWords(env.arch))
  {
    hide Big, ReadBig, BytesAt, ValidateMany, Holds;
    assert Encode(Float(bits)) == [70] + Big(bits, 8) + [];
    ReadBack(mem, pos, 70, bits, 8, []);
  }

  lemma NilAccepted(env: Env, mem: seq<u8>, pos: nat, remaining: nat)
    requires Holds(mem, pos, [106])
    ensures Accepts(Validate(env, mem, pos, remaining), remaining >= 1, 1, 0)
  {
    hide ReadBig, BytesAt, ValidateMany, Holds;
    TagOf(mem, pos, [106]);
  }

  lemma StringAccepted(env: Env, items: seq<Term>, mem: seq<u8>, pos: nat, remaining: nat)
    requires IsString(items, Nil) && |items| < 0x1_0000 && Holds(mem, pos, Encode(List(items, Nil)))
    ensures Accepts(Validate(env, mem, pos, remaining), remaining >= 3 + |items|, 3 + |items|,
            Words(env, List(items, Nil)))
  {
    hide Big, ReadBig, BytesAt, ValidateMany, Chars, WordsAll;
    ReadBack(mem, pos, 107, |items|, 2, Chars(items));
    BigReads(|items|);
    BytesHaveNoWords(env, items);
  }

  /** What validating a container comes to. */
  lemma ValidateTuple(env: Env, mem: seq<u8>, pos: nat, remaining: nat, arity: nat, rest: seq<u8>)
    requires arity < 0x1_0000_0000 && Holds(mem, pos, TupleHead(arity) + rest)
    ensures Holds(mem, pos + |TupleHead(arity)|, rest)
    ensures var counted, head := if arity < 256 then 1 else 5, |TupleHead(arity)|;
            Validate(env, mem, pos, remaining) ==
              if remaining < counted + arity then Reject
              else Plus(head, 1, ValidateMany(env, mem, pos + head, remaining - counted, arity, 1))
  {
    hide Big, ReadBig, BytesAt, ValidateMany, Plus;
    if arity < 256 {
      ShortHeader(mem, pos, 104, arity, rest);
    } else {
      ReadBack(mem, pos, 105, arity, 4, rest);
      BigReads(arity);
    }
  }

  lemma ValidateMap(env: Env, mem: seq<u8>, pos: nat, remaining: nat, n: nat, rest: seq<u8>)
    requires n < 0x1_0000_0000 && Holds(mem, pos, [116] + Big(n, 4) + rest)
    ensures Holds(mem, pos + 5, rest)
    ensures Validate(env, mem, pos, remaining) ==
              if remaining < 5 || remaining - 5 < n then Reject
              else Plus(5, 4, ValidateMany(env, mem, pos + 5, remaining - 5, 2 * n, 1))
  {
    hide Big, ReadBig, BytesAt, ValidateMany, Plus;
    ReadBack(mem, pos, 116, n, 4, rest);
    BigReads(n);
  }

  lemma ValidateList(env: Env, mem: seq<u8>, pos: nat, remaining: nat, n: nat, rest: seq<u8>)
    requires n < 0x1_0000_0000 && Holds(mem, pos, [108] + Big(n, 4) + rest)
    ensures Holds(mem, pos + 5, rest)
    ensures remaining < 5 || remaining - 5 < n ==> Validate(env, mem, pos, remaining) == Reject
    ensures remaining >= 5 + n ==>
              var c := ValidateMany(env, mem, pos + 5, remaining - 5, n, 2);
              Validate(env, mem, pos, remaining) ==
                if c.Reject? || remaining - 5 < c.size then Reject
                else
                  var d := Validate(env, mem, pos + 5 + c.size, remaining - 5 - c.size);
                  if d.Reject? || remaining - 5 - c.size < d.size then Reject
                  else Accept(5 + c.size + d.size, c.words + d.words)
  {
    hide Big, ReadBig, BytesAt, ValidateMany, Holds;
    ReadBack(mem, pos, 108, n, 4, rest);
    BigReads(n);
  }

  /** The validator accepts the bytes of a term when, and only when, as many are said to
      remain, less one if the term is a tuple of fewer than 256 elements. It then reports
      the term's size and no fewer words than the parser takes. */
  lemma {:induction false} ValidateExact(env: Env, t: Term, mem: seq<u8>, pos: nat, remaining: nat)
    requires WellFormed(env, t) && Encodable(t) && Holds(mem, pos, Encode(t))
    ensures Accepts(Validate(env, mem, pos, remaining), remaining >= Needed(t), |Encode(t)|, Words(env, t))
    decreases t, 1
  {
    hide Validate, ValidateMany, EncodeInt, Holds, EncodeAll, Big, AllWellFormed, AllEncodable, WordsAll, SizeAll, Pow;
    SizeIsLength(t);
    match t
    case Int(v) => IntAccepted(env, v, mem, pos, remaining);
    case Tuple(_) => TupleAccepted(env, t, mem, pos, remaining);
    case List(items, tail) =>
      if IsString(items, tail) { StringAccepted(env, items, mem, pos, remaining); }
      else { ListAccepted(env, t, mem, pos, remaining); }
    case Map(_) => MapAccepted(env, t, mem, pos, remaining);
    case Float(bits) => FloatAccepted(env, bits, mem, pos, remaining);
    case Nil => NilAccepted(env, mem, pos, remaining);
    case Atom(name) => AtomAccepted(env, name, mem, pos, remaining);
    case Binary(data) => BinaryAccepted(env, data, mem, pos, remaining);
  }

  /** An empty tuple passes with one byte fewer than it has. */
  lemma TuplePassesShort(env: Env)
    ensures Encode(Tuple([])) == [104, 0] && Validate(env, [104, 0], 0, 1).Accept?
  {
    assert Encode(Tuple([])) == [104, 0] && [104, 0][0..2] == [104, 0];
    SizeIsLength(Tuple([]));
    hide Validate, Encode, Size;
    ValidateExact(env, Tuple([]), [104, 0], 0, 1);
  }

  lemma {:induction false} TupleAccepted(env: Env, t: Term, mem: seq<u8>, pos: nat, remaining: nat)
    requires t.Tuple? && WellFormed(env, t) && Encodable(t) && Holds(mem, pos, Encode(t))
    ensures Accepts(Validate(env, mem, pos, remaining), remaining >= Needed(t), |Encode(t)|, Words(env, t))
    decreases t, 0
  {
    hide Validate, ValidateMany, Holds, EncodeAll, AllWellFormed, AllEncodable, WordsAll, SizeAll;
    var n := |t.elems|;
    SizesAreLengths(t.elems);
    ValidateTuple(env, mem, pos, remaining, n, EncodeAll(t.elems));
    if n < 256 {
      if remaining >= 1 { AllAccepted(env, t.elems, mem, pos + 2, remaining - 1, 1); }
    } else {
      if remaining >= 5 { AllAccepted(env, t.elems, mem, pos + 5, remaining - 5, 1); }
    }
  }

  lemma {:induction false} MapAccepted(env: Env, t: Term, mem: seq<u8>, pos: nat, remaining: nat)
    requires t.Map? && WellFormed(env, t) && Encodable(t) && Holds(mem, pos, Encode(t))
    ensures Accepts(Validate(env, mem, pos, remaining), remaining >= Needed(t), |Encode(t)|, Words(env, t))
    decreases t, 0
  {
    hide Validate, ValidateMany, Holds, EncodeAll, AllWellFormed, AllEncodable, WordsAll, SizeAll, Big;
    SizesAreLengths(t.entries);
    ValidateMap(env, mem, pos, remaining, |t.entries| / 2, EncodeAll(t.entries));
    if remaining >= 5 { AllAccepted(env, t.entries, mem, pos + 5, remaining - 5, 1); }
  }

  lemma {:induction false} ListAccepted(env: Env, t: Term, mem: seq<u8>, pos: nat, remaining: nat)
    requires t.List? && !IsString(t.items, t.tail) && WellFormed(env, t) && Encodable(t) && Holds(mem, pos, Encode(t))
    ensures Accepts(Validate(env, mem, pos, remaining), remaining >= Needed(t), |Encode(t)|, Words(env, t))
    decreases t, 0
  {
    hide Validate, ValidateMany, Holds, Encode, EncodeAll, Words, WordsAll, WellFormed, AllWellFormed, Encodable,
      AllEncodable, IsString, Big, Size, SizeAll;
    var items, tail := t.items, t.tail;
    ListFacts(env, t);
    SizeIsLength(t);
    SizeIsLength(tail);
    SizesAreLengths(items);
    ValidateList(env, mem, pos, remaining, |items|, EncodeAll(items) + Encode(tail));
    HoldsSplit(mem, pos + 5, EncodeAll(items), Encode(tail));
    if remaining >= 5 {
      AllAccepted(env, items, mem, pos + 5, remaining - 5, 2);
      if remaining - 5 >= |EncodeAll(items)| {
        ValidateExact(env, tail, mem, pos + 5 + |EncodeAll(items)|, remaining - 5 - |EncodeAll(items)|);
      }
    }
  }

  lemma {:induction false} AllAccepted(env: Env, ts: seq<Term>, mem: seq<u8>, pos: nat, remaining: nat, each: nat)
    requires AllWellFormed(env, ts) && AllEncodable(ts) && Holds(mem, pos, EncodeAll(ts))
    ensures Accepts(ValidateMany(env, mem, pos, remaining, |ts|, each), remaining >= |EncodeAll(ts)|,
                    |EncodeAll(ts)|, WordsAll(env, ts) + each * |ts|)
    decreases ts
  {
    hide Validate, Encode, Holds, Words, WellFormed, Encodable, Size;
    if |ts| > 0 {
      HoldsSplit(mem, pos, Encode(ts[0]), EncodeAll(ts[1..]));
      SizeIsLength(ts[0]);
      ValidateExact(env, ts[0], mem, pos, remaining);
      if remaining >= |Encode(ts[0])| {
        AllAccepted(env, ts[1..], mem, pos + |Encode(ts[0])|, remaining - |Encode(ts[0])|, each);
      }
      MulDist(each, |ts| - 1, 1);
    }
  }

  /** binary_to_term undoes term_to_binary on every encodable term: validation passes,
      nothing outside the binary is read, and all bytes are used. */
  lemma BinaryRoundTripWhole(env: Env, t: Term)
    requires WellFormed(env, t) && Encodable(t)
    ensures BinaryToTerm(env, TermToBinary(t)) == Done(t, |TermToBinary(t)|, Words(env, t))
  {
    hide Parse, Validate, Encode, Words, WellFormed, Encodable, Size;
    var bin := TermToBinary(t);
    assert Holds(bin, 1, Encode(t));
    SizeIsLength(t);
    ValidateExact(env, t, bin, 1, |bin| - 1);
    RoundTrip(env, t, bin, 1);
  }

  /** binary_to_term(term_to_binary(T)) is T exactly when no list of bytes in T has 65536
      elements or more; it then uses all bytes. */
  lemma ExactRoundTrip(env: Env, t: Term)
    requires WellFormed(env, t)
    ensures var r := BinaryToTerm(env, TermToBinary(t));
            (r.Done? && r.value == t) <==> Encodable(t)
    ensures Encodable(t) ==> BinaryToTerm(env, TermToBinary(t)).size == |TermToBinary(t)|
  {
    hide Parse, Validate, Encode, Size, WellFormed, Encodable, Words;
    if Encodable(t) { BinaryRoundTripWhole(env, t); }
    assert Holds(TermToBinary(t), 1, Encode(t));
    var r := BinaryToTerm(env, TermToBinary(t));
    if r.Done? && r.value == t { OnlyEncodable(env, t, TermToBinary(t), 1); }
  }

  /** A list of 65536 zeros does not come back. */
  lemma LongStringLost(env: Env)
    ensures var t := List(seq(0x1_0000, _ => Int(0)), Nil); var r := BinaryToTerm(env, TermToBinary(t));
            WellFormed(env, t) && !(r.Done? && r.value == t)
  {
    var items := seq(0x1_0000, _ => Int(0));
    BytesWellFormed(env, items);
    hide BinaryToTerm, Encode, AllWellFormed;
    ExactRoundTrip(env, List(items, Nil));
  }
}
