/** The serializer, the validator and the parser as they run: loops over elements, and
    bytes written in place. */
module EtfCode {
  import opened Prelude
  import opened Digits
  import opened Intn
  import opened IntnBytes
  import opened Etf

  /** Everything outside the k bytes at off is as it was. */
  twostate predicate OnlyAt(buf: array<u8>, off: nat, k: nat)
    reads buf
  {
    forall i :: 0 <= i < buf.Length && !(off <= i < off + k) ==> buf[i] == old(buf[i])
  }

  // ---- bytes ----

  /** memcpy */
  method Put(buf: array<u8>, off: nat, bytes: seq<u8>)
    requires off + |bytes| <= buf.Length
    modifies buf
    ensures buf[off..off + |bytes|] == bytes && OnlyAt(buf, off, |bytes|)
  {
    for i := 0 to |bytes|
      invariant buf[off..off + i] == bytes[..i] && OnlyAt(buf, off, i)
    {
      buf[off + i] := bytes[i];
    }
  }

  /** get_num_bytes */
  method GetNumBytes(m: nat) returns (n: nat)
    ensures n == NumBytes(m)
  {
    var rest := m;
    n := 0;
    while rest != 0
      invariant n + NumBytes(rest) == NumBytes(m)
    {
      rest := rest / 256;
      n := n + 1;
    }
  }

  /** write_bytes */
  method WriteBytes(buf: array<u8>, off: nat, m: nat)
    requires off + NumBytes(m) <= buf.Length
    modifies buf
    ensures buf[off..off + NumBytes(m)] == Little(m) && OnlyAt(buf, off, NumBytes(m))
  {
    hide Little, NumBytes, Val;
    LittleVal(m);
    EmptyLittle();
    var rest, i := m, 0;
    while rest != 0
      invariant i <= NumBytes(m) && buf[off..off + i] + Little(rest) == Little(m) && OnlyAt(buf, off, i)
    {
      LittleStep(rest);
      ghost var done, was := buf[off..off + i], rest;
      buf[off + i] := rest % 256;
      rest := rest / 256;
      i := i + 1;
      assert buf[off..off + i] == done + [was % 256];
    }
  }

  /** read_bytes */
  method ReadBytes(bytes: seq<u8>) returns (m: int)
    ensures m == Val(bytes, 256)
  {
    hide Val, Pow;
    m := 0;
    assert bytes[..0] == [] && Val([], 256) == 0 by { NoValue(); }
    for i := 0 to |bytes|
      invariant m == Val(bytes[..i], 256)
    {
      ValStep(bytes, i, 256);
      m := m + Pow(256, i) * bytes[i];
    }
    assert bytes[..|bytes|] == bytes;
  }

  lemma NoValue()
    ensures Val([], 256) == 0
  {}

  // ---- the serializer ----

  function DigitsOf(m: nat): seq<u32> {
    if m == 0 then [] else [m % 0x1_0000_0000] + DigitsOf(m / 0x1_0000_0000)
  }

  lemma {:induction false} DigitsOfValue(m: nat)
    ensures V32(DigitsOf(m)) == m
  {
    if m > 0 {
      DigitsOfValue(m / 0x1_0000_0000);
      assert DigitsOf(m)[1..] == DigitsOf(m / 0x1_0000_0000);
    }
  }

  /** The bytes of a magnitude of more than 64 bits, by way of its digits. */
  method BigBytes(m: nat) returns (bytes: seq<u8>)
    ensures bytes == Little(m)
  {
    hide *;
    var digits := DigitsOf(m);
    DigitsOfValue(m);
    var n := RequiredUnsignedBytes(digits);
    var out := new u8[n](_ => 0);
    var r := ToIntegerBytes(digits, Positive, true, out, n);
    bytes := out[..n];
    LittleVal(m);
    BytesAreLittle(m, digits, bytes);
  }

  lemma BytesAreLittle(m: nat, digits: seq<u32>, bytes: seq<u8>)
    requires V32(digits) == m && |bytes| == |Little(m)| && Val(Little(m), 256) == m
    requires Val(InOrder(bytes, true), 256) == Modulo(Signed(Positive, digits), |bytes|)
    ensures bytes == Little(m)
  {
    hide Val, Little;
    ValInjective(bytes, Little(m), 256);
  }

  method SerializeBig(buf: array<u8>, off: nat, v: int) returns (k: nat)
    requires !IsInt32(v) && off + 3 + NumBytes(Abs(v)) <= buf.Length
    modifies buf
    ensures k == 3 + NumBytes(Abs(v)) && buf[off..off + k] == EncodeInt(v) && OnlyAt(buf, off, k)
  {
    hide Little, NumBytes, EncodeInt;
    var m := Abs(v);
    LittleVal(m);
    var n := PutMagnitude(buf, off + 3, v);
    var sign := if v < 0 then 1 else 0;
    BigHead(v);
    WriteHead(buf, off, [110, n % 256, sign], n);
    k := 3 + n;
  }

  method PutMagnitude(buf: array<u8>, off: nat, v: int) returns (n: nat)
    requires off + NumBytes(Abs(v)) <= buf.Length
    modifies buf
    ensures n == NumBytes(Abs(v)) && buf[off..off + n] == Little(Abs(v)) && OnlyAt(buf, off, n)
  {
    hide Little, NumBytes, Val;
    var m := Abs(v);
    LittleVal(m);
    if IsInt64(v) {
      n := GetNumBytes(m);
      WriteBytes(buf, off, m);
    } else {
      var bytes := BigBytes(m);
      n := |bytes|;
      Put(buf, off, bytes);
    }
  }

  lemma BigHead(v: int)
    requires !IsInt32(v)
    ensures var bytes := Little(Abs(v));
            EncodeInt(v) == [110, |bytes| % 256, if v < 0 then 1 else 0] + bytes
  {
    hide Big, Little;
    Truncated(|Little(Abs(v))|);
  }

  /** A header in front of n bytes already there. */
  method WriteHead(buf: array<u8>, off: nat, head: seq<u8>, n: nat)
    requires off + |head| + n <= buf.Length
    modifies buf
    ensures buf[off..off + |head| + n] == head + old(buf[off + |head|..off + |head| + n])
    ensures OnlyAt(buf, off, |head|)
  {
    ghost var rest := buf[off + |head|..off + |head| + n];
    Put(buf, off, head);
    assert buf[off + |head|..off + |head| + n] == rest;
    assert buf[off..off + |head| + n] == buf[off..off + |head|] + buf[off + |head|..off + |head| + n];
  }

  method SerializeInt(buf: array<u8>, off: nat, v: int) returns (k: nat)
    requires off + Size(Int(v)) <= buf.Length
    modifies buf
    ensures k == Size(Int(v)) && buf[off..off + k] == EncodeInt(v) && OnlyAt(buf, off, k)
  {
    hide Big, Little, NumBytes, Val;
    if 0 <= v < 256 {
      Put(buf, off, [97, v]);
      k := 2;
    } else if IsInt32(v) {
      Put(buf, off, [98] + Big(if v < 0 then v + 0x1_0000_0000 else v, 4));
      k := 5;
    } else {
      k := SerializeBig(buf, off, v);
    }
  }

  lemma Truncated(n: nat)
    ensures Big(n, 1) == [n % 256]
  {
    assert Big(n / 256, 0) == [];
  }

  lemma {:induction false} EncodeAllSnoc(ts: seq<Term>, t: Term)
    ensures EncodeAll(ts + [t]) == EncodeAll(ts) + Encode(t) && SizeAll(ts + [t]) == SizeAll(ts) + Size(t)
  {
    if |ts| == 0 {
      assert ts + [t] == [t] && [t][1..] == [];
      assert EncodeAll([t]) == Encode(t) + EncodeAll([]);
    } else {
      assert (ts + [t])[1..] == ts[1..] + [t];
      EncodeAllSnoc(ts[1..], t);
      hide Encode, Size;
      assert (ts + [t])[0] == ts[0];
      assert Encode(ts[0]) + (EncodeAll(ts[1..]) + Encode(t)) == Encode(ts[0]) + EncodeAll(ts[1..]) + Encode(t);
    }
  }

  lemma {:induction false} SizeAllPrefix(ts: seq<Term>, i: nat)
    requires i <= |ts|
    ensures SizeAll(ts[..i]) <= SizeAll(ts)
  {
    if i > 0 {
      SizeAllPrefix(ts[1..], i - 1);
      assert ts[..i][1..] == ts[1..][..i - 1];
    }
  }

  /** One term behind k bytes already written. */
  method SerializeBehind(buf: array<u8>, off: nat, k: nat, t: Term) returns (n: nat)
    requires off + k + Size(t) <= buf.Length
    modifies buf
    ensures n == Size(t) && buf[off..off + k + n] == old(buf[off..off + k]) + Encode(t) && OnlyAt(buf, off + k, n)
    decreases t, 2
  {
    hide Encode, Size;
    ghost var done := buf[off..off + k];
    n := Serialize(buf, off + k, t);
    assert buf[off..off + k] == done;
    assert buf[off..off + k + n] == buf[off..off + k] + buf[off + k..off + k + n];
  }

  /** Elements one after the other. */
  method SerializeAll(buf: array<u8>, off: nat, ts: seq<Term>) returns (k: nat)
    requires off + SizeAll(ts) <= buf.Length
    modifies buf
    ensures k == SizeAll(ts) && buf[off..off + k] == EncodeAll(ts) && OnlyAt(buf, off, k)
    decreases ts, 0
  {
    hide Encode, Size, SizeAll, EncodeAll;
    k := 0;
    NoElements();
    assert ts[..0] == [];
    for i := 0 to |ts|
      invariant k == SizeAll(ts[..i]) && off + k <= buf.Length
      invariant buf[off..off + k] == EncodeAll(ts[..i]) && OnlyAt(buf, off, k)
    {
      assert ts[..i + 1] == ts[..i] + [ts[i]];
      EncodeAllSnoc(ts[..i], ts[i]);
      SizeAllPrefix(ts, i + 1);
      var n := SerializeBehind(buf, off, k, ts[i]);
      k := k + n;
    }
    assert ts[..|ts|] == ts;
  }

  lemma NoElements()
    ensures EncodeAll([]) == [] && SizeAll([]) == 0
  {}

  /** A header, and the elements behind it. */
  method SerializeBlock(buf: array<u8>, off: nat, head: seq<u8>, ts: seq<Term>) returns (k: nat)
    requires off + |head| + SizeAll(ts) <= buf.Length
    modifies buf
    ensures k == |head| + SizeAll(ts) && buf[off..off + k] == head + EncodeAll(ts) && OnlyAt(buf, off, k)
    decreases ts, 1
  {
    hide SizeAll, EncodeAll;
    Put(buf, off, head);
    var n := SerializeAll(buf, off + |head|, ts);
    assert buf[off..off + |head|] == head;
    k := |head| + n;
    assert buf[off..off + k] == buf[off..off + |head|] + buf[off + |head|..off + k];
  }

  method SerializeCells(buf: array<u8>, off: nat, items: seq<Term>, tail: Term) returns (k: nat)
    requires off + SizeAll(items) + Size(tail) <= buf.Length
    modifies buf
    ensures k == SizeAll(items) + Size(tail) && buf[off..off + k] == EncodeAll(items) + Encode(tail) &&
            OnlyAt(buf, off, k)
    decreases List(items, tail), 0, 0
  {
    hide Encode, Size, SizeAll, EncodeAll;
    var a := SerializeAll(buf, off, items);
    var b := SerializeBehind(buf, off, a, tail);
    k := a + b;
  }

  /** serialize_term for a list that is not a string: the count goes in last. */
  method SerializeList(buf: array<u8>, off: nat, items: seq<Term>, tail: Term) returns (k: nat)
    requires off + 5 + SizeAll(items) + Size(tail) <= buf.Length
    modifies buf
    ensures k == 5 + SizeAll(items) + Size(tail) && OnlyAt(buf, off, k)
    ensures buf[off..off + k] == [108] + Big(|items|, 4) + (EncodeAll(items) + Encode(tail))
    decreases List(items, tail), 0, 1
  {
    hide Encode, Size, SizeAll, EncodeAll, Big;
    var n := SerializeCells(buf, off + 5, items, tail);
    WriteHead(buf, off, [108] + Big(|items|, 4), n);
    k := 5 + n;
  }

  /** serialize_term for a term without terms in it. */
  method SerializeLeaf(buf: array<u8>, off: nat, t: Term) returns (k: nat)
    requires t.Float? || t.Atom? || t.Nil? || t.Binary?
    requires off + Size(t) <= buf.Length
    modifies buf
    ensures k == Size(t) && buf[off..off + k] == Encode(t) && OnlyAt(buf, off, k)
  {
    hide Big;
    match t
    case Float(bits) => Put(buf, off, [70] + Big(bits, 8)); k := 9;
    case Nil => Put(buf, off, [106]); k := 1;
    case Atom(name) =>
      if |name| >= 256 {
        Put(buf, off, [118] + Big(|name|, 2) + name);
        k := 3 + |name|;
      } else {
        Put(buf, off, [119, |name|] + name);
        k := 2 + |name|;
      }
    case Binary(data) => Put(buf, off, [109] + Big(|data|, 4) + data); k := 5 + |data|;
  }

  /** serialize_term: what it writes is Encode, and what it returns is the size pass. */
  method Serialize(buf: array<u8>, off: nat, t: Term) returns (k: nat)
    requires off + Size(t) <= buf.Length
    modifies buf
    ensures k == Size(t) && buf[off..off + k] == Encode(t) && OnlyAt(buf, off, k)
    decreases t, 1
  {
    hide SizeAll, EncodeAll, Big, Chars, EncodeInt;
    if t.Int? {
      k := SerializeInt(buf, off, t.v);
    } else if t.Tuple? {
      k := SerializeBlock(buf, off, TupleHead(|t.elems|), t.elems);
    } else if t.List? {
      if IsString(t.items, t.tail) {
        Put(buf, off, [107] + Big(|t.items|, 2) + Chars(t.items));
        k := 3 + |t.items|;
      } else {
        k := SerializeList(buf, off, t.items, t.tail);
      }
    } else if t.Map? {
      k := SerializeBlock(buf, off, [116] + Big(|t.entries| / 2, 4), t.entries);
    } else {
      k := SerializeLeaf(buf, off, t);
    }
  }

  /** external_term_to_binary: sized by one pass, filled by the other. */
  method ToBinary(t: Term) returns (bin: seq<u8>)
    ensures bin == TermToBinary(t)
  {
    hide Size, Encode;
    var len := Size(t) + 1;
    var buf := new u8[len](_ => 0);
    var k := Serialize(buf, 1, t);
    buf[0] := 131;
    bin := buf[..];
    assert bin == [buf[0]] + buf[1..1 + k];
  }

  // ---- the loops of the parser and the validator ----

  /** Elements read so far in front of what the rest gives. */
  function InFront(ts: seq<Term>, size: nat, words: nat, rest: Outcome<seq<Term>>): Outcome<seq<Term>> {
    if rest.Done? then Done(ts + rest.value, size + rest.size, words + rest.words) else rest
  }

  lemma InFrontNothing(r: Outcome<seq<Term>>)
    ensures InFront([], 0, 0, r) == r
  {
    if r.Done? { assert [] + r.value == r.value; }
  }

  lemma InFrontMore(ts: seq<Term>, size: nat, words: nat, e: Outcome<Term>, rest: Outcome<seq<Term>>)
    requires e.Done?
    ensures InFront(ts, size, words, InFront([e.value], e.size, e.words, rest)) ==
            InFront(ts + [e.value], size + e.size, words + e.words, rest)
  {
    if rest.Done? { assert ts + ([e.value] + rest.value) == (ts + [e.value]) + rest.value; }
  }

  /** The element loop of parse_external_terms with its running position. */
  method ParseElements(env: Env, mem: seq<u8>, pos: nat, count: nat) returns (r: Outcome<seq<Term>>)
    ensures r == ParseMany(env, mem, pos, count)
  {
    hide Parse;
    var ts: seq<Term>, at: nat, words: nat, i: nat := [], pos, 0, 0;
    InFrontNothing(ParseMany(env, mem, pos, count));
    while i < count
      invariant i <= count && pos <= at
      invariant ParseMany(env, mem, pos, count) == InFront(ts, at - pos, words, ParseMany(env, mem, at, count - i))
    {
      var e := Parse(env, mem, at);
      if e.Invalid? { return Invalid; }
      if e.Undefined? { return Undefined; }
      ghost var rest := ParseMany(env, mem, at + e.size, count - i - 1);
      InFrontMore(ts, at - pos, words, e, rest);
      ts, at, words := ts + [e.value], at + e.size, words + e.words;
      i := i + 1;
    }
    r := Done(ts, at - pos, words);
    assert ts + [] == ts;
  }

  /** The element loop of calculate_heap_usage with what remains. */
  method ValidateElements(env: Env, mem: seq<u8>, pos: nat, remaining: nat, count: nat, each: nat) returns (c: Check)
    ensures c == ValidateMany(env, mem, pos, remaining, count, each)
  {
    hide Validate;
    var at: nat, left: nat, words: nat, i: nat := pos, remaining, 0, 0;
    while i < count
      invariant i <= count && pos <= at
      invariant ValidateMany(env, mem, pos, remaining, count, each) ==
                Plus(at - pos, words, ValidateMany(env, mem, at, left, count - i, each))
    {
      var e := Validate(env, mem, at, left);
      if e.Reject? { return Reject; }
      if left < e.size { return Reject; }
      at, left, words := at + e.size, left - e.size, words + (e.words + each);
      i := i + 1;
    }
    c := Accept(at - pos, words);
  }
}
