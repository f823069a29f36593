/** The External Term Format as its documentation gives it, apart from the code: which bytes
    stand for a term. The serializer writes such bytes, and the parser reads exactly those. */
module EtfFormat {
  import opened Prelude
  import opened Digits
  import opened IntnBytes
  import opened Etf
  import opened EtfProof

  // ---- the tags, by the names of the documentation ----

  const VERSION: u8 := 131
  const NEW_FLOAT_EXT: u8 := 70
  const SMALL_INTEGER_EXT: u8 := 97
  const INTEGER_EXT: u8 := 98
  const SMALL_TUPLE_EXT: u8 := 104
  const LARGE_TUPLE_EXT: u8 := 105
  const NIL_EXT: u8 := 106
  const STRING_EXT: u8 := 107
  const LIST_EXT: u8 := 108
  const BINARY_EXT: u8 := 109
  const SMALL_BIG_EXT: u8 := 110
  const MAP_EXT: u8 := 116
  const ATOM_UTF8_EXT: u8 := 118
  const SMALL_ATOM_UTF8_EXT: u8 := 119

  // ---- fields ----

  /** Unsigned numbers of two, four and eight bytes, most significant first. */
  function U16(b: seq<u8>, i: nat): int
    requires i + 2 <= |b|
  {
    256 * (b[i] as int) + b[i + 1] as int
  }

  function U32(b: seq<u8>, i: nat): int
    requires i + 4 <= |b|
  {
    16777216 * (b[i] as int) + 65536 * (b[i + 1] as int) + 256 * (b[i + 2] as int) + b[i + 3] as int
  }

  function U64(b: seq<u8>, i: nat): int
    requires i + 8 <= |b|
  {
    0x1_0000_0000 * U32(b, i) + U32(b, i + 4)
  }

  /** Each of the first n bytes times its power of 256, least significant first. */
  ghost function Sum256(s: seq<u8>, n: nat): int
    requires n <= |s|
  {
    if n == 0 then 0 else Sum256(s, n - 1) + Pow(256, n - 1) * (s[n - 1] as int)
  }

  // ---- which bytes stand for a term ----

  /** INTEGER_EXT holds two's complement. SMALL_BIG_EXT holds a length, a sign and a magnitude;
      lenient admits up to 43 bytes, of which 32 count. */
  ghost predicate IntStands(v: int, b: seq<u8>, lenient: bool) {
    || (|b| == 2 && b[0] == SMALL_INTEGER_EXT && v == b[1])
    || (|b| == 5 && b[0] == INTEGER_EXT && v == if b[1] < 128 then U32(b, 1) else U32(b, 1) - 0x1_0000_0000)
    || (|b| >= 3 && b[0] == SMALL_BIG_EXT && |b| == 3 + b[1] as int && |b| - 3 <= (if lenient then 43 else 32)
        && var n := if |b| - 3 <= 32 then |b| - 3 else 32;
           v == if b[2] == 0 then Sum256(b[3..], n) else -Sum256(b[3..], n))
  }

  ghost predicate AtomStands(name: seq<u8>, b: seq<u8>) {
    || (|b| >= 3 && b[0] == ATOM_UTF8_EXT && U16(b, 1) == |name| && b[3..] == name)
    || (|b| >= 2 && b[0] == SMALL_ATOM_UTF8_EXT && b[1] as int == |name| && b[2..] == name)
  }

  ghost predicate StringStands(items: seq<Term>, tail: Term, b: seq<u8>) {
    && |b| >= 4 && b[0] == STRING_EXT && U16(b, 1) == |items| == |b| - 3 && tail == Nil
    && forall i :: 0 <= i < |items| ==> items[i] == Int(b[3 + i])
  }

  /** What follows the first n elements of a list. */
  ghost function After(items: seq<Term>, tail: Term, n: nat): Term
    requires n <= |items|
  {
    if n == |items| then tail else List(items[n..], tail)
  }

  /** The bytes of a term. Integers have at most 32 bytes, which is what the machine keeps.
      Lenient are the two places where the parser reads more than the format has. */
  ghost predicate Stands(t: Term, b: seq<u8>, lenient: bool)
    decreases |b|, 0
  {
    match t
    case Int(v) => IntStands(v, b, lenient)
    case Float(bits) => |b| == 9 && b[0] == NEW_FLOAT_EXT && bits as int == U64(b, 1)
    case Atom(name) => AtomStands(name, b)
    case Tuple(elems) =>
      || (|b| >= 2 && b[0] == SMALL_TUPLE_EXT && b[1] as int == |elems| && StandAll(elems, b[2..], lenient))
      || (|b| >= 5 && b[0] == LARGE_TUPLE_EXT && U32(b, 1) == |elems| && StandAll(elems, b[5..], lenient))
    case Nil => b == [NIL_EXT] || (lenient && |b| == 5 && b[0] == LIST_EXT && U32(b, 1) == 0)
    case List(items, tail) =>
      && |items| > 0 && !tail.List?
      && (StringStands(items, tail, b)
          || (&& |b| >= 5 && b[0] == LIST_EXT && 0 < U32(b, 1) <= |items|
              && exists k :: 5 <= k < |b| && StandAll(items[..U32(b, 1)], b[5..k], lenient)
                             && Stands(After(items, tail, U32(b, 1)), b[k..], lenient)))
    case Binary(data) => |b| >= 5 && b[0] == BINARY_EXT && U32(b, 1) == |data| && b[5..] == data
    case Map(entries) =>
      |b| >= 5 && b[0] == MAP_EXT && 2 * U32(b, 1) == |entries| && StandAll(entries, b[5..], lenient)
  }

  /** The bytes of terms one behind the other. */
  ghost predicate StandAll(ts: seq<Term>, b: seq<u8>, lenient: bool)
    decreases |b|, 1
  {
    if |ts| == 0 then b == []
    else exists k :: 0 < k <= |b| && Stands(ts[0], b[..k], lenient) && StandAll(ts[1..], b[k..], lenient)
  }

  /** All names are ones the machine takes for UTF-8. */
  ghost predicate NamesOk(env: Env, t: Term) {
    match t
    case Atom(name) => env.utf8(name)
    case Tuple(elems) => AllNamesOk(env, elems)
    case List(items, tail) => AllNamesOk(env, items) && NamesOk(env, tail)
    case Map(entries) => AllNamesOk(env, entries)
    case _ => true
  }

  ghost predicate AllNamesOk(env: Env, ts: seq<Term>) {
    |ts| > 0 ==> NamesOk(env, ts[0]) && AllNamesOk(env, ts[1..])
  }

  // ---- fields and slices ----

  lemma ReadBig2(s: seq<u8>)
    requires |s| == 2
    ensures ReadBig(s) == U16(s, 0)
  {
    assert s[..1][..0] == [];
    assert ReadBig(s[..1]) == s[0];
  }

  lemma ReadBig4(s: seq<u8>)
    requires |s| == 4
    ensures ReadBig(s) == U32(s, 0)
  {
    assert s[..3][..2] == s[..2];
    ReadBig2(s[..2]);
    assert ReadBig(s[..3]) == ReadBig(s[..2]) * 256 + s[2];
  }

  lemma ReadBig8(s: seq<u8>)
    requires |s| == 8
    ensures ReadBig(s) == U64(s, 0)
  {
    ReadBig4(s[..4]);
    assert s[..7][..6] == s[..6] && s[..6][..5] == s[..5] && s[..5][..4] == s[..4];
    assert ReadBig(s[..5]) == ReadBig(s[..4]) * 256 + s[4];
    assert ReadBig(s[..6]) == ReadBig(s[..5]) * 256 + s[5];
    assert ReadBig(s[..7]) == ReadBig(s[..6]) * 256 + s[6];
  }

  /** A field of a slice is the field of the whole. */
  lemma FieldsOf(mem: seq<u8>, pos: nat, end: nat, i: nat)
    requires pos + i <= end <= |mem|
    ensures pos + i < end ==> mem[pos..end][i] == mem[pos + i]
    ensures pos + i + 2 <= end ==> U16(mem[pos..end], i) == U16(mem, pos + i)
    ensures pos + i + 4 <= end ==> U32(mem[pos..end], i) == U32(mem, pos + i)
    ensures pos + i + 8 <= end ==> U64(mem[pos..end], i) == U64(mem, pos + i)
  {}

  lemma ReadAt(mem: seq<u8>, i: nat)
    ensures i + 2 <= |mem| ==> ReadBig(mem[i..i + 2]) == U16(mem, i)
    ensures i + 4 <= |mem| ==> ReadBig(mem[i..i + 4]) == U32(mem, i)
    ensures i + 8 <= |mem| ==> ReadBig(mem[i..i + 8]) == U64(mem, i)
  {
    hide ReadBig;
    if i + 2 <= |mem| { ReadBig2(mem[i..i + 2]); }
    if i + 4 <= |mem| { ReadBig4(mem[i..i + 4]); }
    if i + 8 <= |mem| { ReadBig8(mem[i..i + 8]); FieldsOf(mem, i, i + 8, 0); }
  }

  lemma {:induction false} SumIsVal(s: seq<u8>, n: nat)
    requires n <= |s|
    ensures Sum256(s, n) == Val(s[..n], 256)
  {
    if n > 0 {
      SumIsVal(s, n - 1);
      assert s[..n] == s[..n - 1] + [s[n - 1]];
      ValSnoc(s[..n - 1], s[n - 1], 256);
    }
  }

  // ---- what the parser does at each tag ----

  lemma AtFloat(env: Env, mem: seq<u8>, pos: nat)
    requires pos < |mem| && mem[pos] == NEW_FLOAT_EXT
    ensures var r := Parse(env, mem, pos);
            if pos + 9 <= |mem| then r == Done(Float(U64(mem, pos + 1)), 9, FloatWords(env.arch)) else !r.Done?
  {
    hide ReadBig, ParseMany, BigTerm, AtomTerm, BinaryWords, Integers, Cells, TupleOf, FloatWords;
    ReadAt(mem, pos + 1);
  }

  lemma AtByte(env: Env, mem: seq<u8>, pos: nat)
    requires pos < |mem| && mem[pos] == SMALL_INTEGER_EXT
    ensures var r := Parse(env, mem, pos);
            if pos + 2 <= |mem| then r == Done(Int(mem[pos + 1]), 2, 0) else !r.Done?
  {
    hide ReadBig, ParseMany, BigTerm, AtomTerm, BinaryWords, Integers, Cells, FloatWords, TupleOf;
  }

  lemma AtInt32(env: Env, mem: seq<u8>, pos: nat)
    requires pos < |mem| && mem[pos] == INTEGER_EXT
    ensures var r := Parse(env, mem, pos);
            if pos + 5 <= |mem| then
              && r.Done? && r.size == 5 && r.value.Int? && r.words == BoxedIntWords(env.arch, r.value.v)
              && r.value == Int(if mem[pos + 1] < 128 then U32(mem, pos + 1) else U32(mem, pos + 1) - 0x1_0000_0000)
            else !r.Done?
  {
    hide ReadBig, ParseMany, BigTerm, AtomTerm, BinaryWords, Integers, Cells, FloatWords, TupleOf, BoxedIntWords;
    ReadAt(mem, pos + 1);
  }

  /** Bytes of a magnitude that count. */
  function Counted(n: nat): nat { if n <= 32 then n else 32 }

  lemma AtBig(env: Env, mem: seq<u8>, pos: nat)
    requires pos < |mem| && mem[pos] == SMALL_BIG_EXT
    ensures var r := Parse(env, mem, pos);
            if pos + 3 <= |mem| && pos + 3 + mem[pos + 1] as int <= |mem| && mem[pos + 1] < 44 then
              var n: int := mem[pos + 1];
              var m := Sum256(mem[pos + 3..pos + 3 + n], Counted(n));
              && r.Done? && r.size == 3 + n && r.value == Int(if mem[pos + 2] == 0 then m else -m) && m >= 0
              && r.words == if IsInt64(r.value.v) then BoxedIntWords(env.arch, r.value.v)
                            else BigWords(env.arch, Digits32(m))
            else !r.Done?
  {
    hide ReadBig, ParseMany, AtomTerm, BinaryWords, Integers, Cells, FloatWords, TupleOf, BoxedIntWords, Sum256, Val,
      BigWords, Digits32;
    if pos + 3 <= |mem| && pos + 3 + mem[pos + 1] as int <= |mem| {
      var n: int := mem[pos + 1];
      var bytes := mem[pos + 3..pos + 3 + n];
      SumIsVal(bytes, Counted(n));
      if n <= 32 { assert bytes[..n] == bytes; }
    }
  }

  lemma AtTuple(env: Env, mem: seq<u8>, pos: nat)
    requires pos < |mem| && (mem[pos] == SMALL_TUPLE_EXT || mem[pos] == LARGE_TUPLE_EXT)
    ensures var head := if mem[pos] == SMALL_TUPLE_EXT then 2 else 5;
            if pos + head <= |mem| then
              var arity: int := if mem[pos] == SMALL_TUPLE_EXT then mem[pos + 1] else U32(mem, pos + 1);
              Parse(env, mem, pos) == TupleOf(ParseMany(env, mem, pos + head, arity), head)
            else !Parse(env, mem, pos).Done?
  {
    hide ReadBig, ParseMany, BigTerm, AtomTerm, BinaryWords, Integers, Cells, FloatWords, TupleOf, BoxedIntWords;
    ReadAt(mem, pos + 1);
  }

  lemma AtNil(env: Env, mem: seq<u8>, pos: nat)
    requires pos < |mem| && mem[pos] == NIL_EXT
    ensures Parse(env, mem, pos) == Done(Nil, 1, 0)
  {
    hide ReadBig, ParseMany, BigTerm, AtomTerm, BinaryWords, Integers, Cells, FloatWords, TupleOf, BoxedIntWords;
  }

  lemma AtString(env: Env, mem: seq<u8>, pos: nat)
    requires pos < |mem| && mem[pos] == STRING_EXT
    ensures var r := Parse(env, mem, pos);
            if pos + 3 <= |mem| && U16(mem, pos + 1) > 0 && pos + 3 + U16(mem, pos + 1) <= |mem| then
              var n := U16(mem, pos + 1);
              r == Done(List(Integers(mem[pos + 3..pos + 3 + n]), Nil), 3 + n, 2 * n)
            else !r.Done?
  {
    hide ReadBig, ParseMany, BigTerm, AtomTerm, BinaryWords, Integers, Cells, FloatWords, TupleOf, BoxedIntWords;
    ReadAt(mem, pos + 1);
  }

  lemma AtList(env: Env, mem: seq<u8>, pos: nat)
    requires pos < |mem| && mem[pos] == LIST_EXT
    ensures var r := Parse(env, mem, pos);
            if pos + 5 > |mem| then !r.Done?
            else
              var n := U32(mem, pos + 1);
              if n == 0 then r == Done(Nil, 5, 0)
              else
                var items := ParseMany(env, mem, pos + 5, n);
                if !items.Done? then !r.Done?
                else
                  var tail := Parse(env, mem, pos + 5 + items.size);
                  if !tail.Done? then !r.Done?
                  else r == Done(Cells(items.value, tail.value), 5 + items.size + tail.size,
                                 items.words + 2 * n + tail.words)
  {
    hide ReadBig, BigTerm, AtomTerm, BinaryWords, Integers, Cells, FloatWords, TupleOf, BoxedIntWords;
    ReadAt(mem, pos + 1);
  }

  lemma AtBinary(env: Env, mem: seq<u8>, pos: nat)
    requires pos < |mem| && mem[pos] == BINARY_EXT
    ensures var r := Parse(env, mem, pos);
            if pos + 5 <= |mem| && pos + 5 + U32(mem, pos + 1) <= |mem| then
              var n := U32(mem, pos + 1);
              r == Done(Binary(mem[pos + 5..pos + 5 + n]), 5 + n, BinaryWords(env, n))
            else !r.Done?
  {
    hide ReadBig, ParseMany, BigTerm, AtomTerm, BinaryWords, Integers, Cells, FloatWords, TupleOf, BoxedIntWords;
    ReadAt(mem, pos + 1);
  }

  lemma AtMap(env: Env, mem: seq<u8>, pos: nat)
    requires pos < |mem| && mem[pos] == MAP_EXT
    ensures var r := Parse(env, mem, pos);
            if pos + 5 > |mem| then !r.Done?
            else
              var entries := ParseMany(env, mem, pos + 5, 2 * U32(mem, pos + 1));
              if !entries.Done? then !r.Done?
              else r == Done(Map(entries.value), 5 + entries.size, entries.words + 3 + 2 * U32(mem, pos + 1))
  {
    hide ReadBig, ParseMany, BigTerm, AtomTerm, BinaryWords, Integers, Cells, FloatWords, TupleOf, BoxedIntWords;
    ReadAt(mem, pos + 1);
  }

  lemma AtAtom(env: Env, mem: seq<u8>, pos: nat)
    requires pos < |mem| && (mem[pos] == ATOM_UTF8_EXT || mem[pos] == SMALL_ATOM_UTF8_EXT)
    ensures var r, head := Parse(env, mem, pos), if mem[pos] == ATOM_UTF8_EXT then 3 else 2;
            if pos + head > |mem| then !r.Done?
            else
              var n: int := if mem[pos] == ATOM_UTF8_EXT then U16(mem, pos + 1) else mem[pos + 1];
              if pos + head + n <= |mem| && env.utf8(mem[pos + head..pos + head + n]) then
                r == Done(Atom(mem[pos + head..pos + head + n]), head + n, 0)
              else !r.Done?
  {
    hide ReadBig, ParseMany, BigTerm, BinaryWords, Integers, Cells, FloatWords, TupleOf, BoxedIntWords;
    ReadAt(mem, pos + 1);
  }

  /** Nothing else is read. */
  lemma AtOther(env: Env, mem: seq<u8>, pos: nat)
    requires Parse(env, mem, pos).Done?
    ensures pos < |mem|
    ensures mem[pos] in {NEW_FLOAT_EXT, SMALL_INTEGER_EXT, INTEGER_EXT, SMALL_BIG_EXT, SMALL_TUPLE_EXT, LARGE_TUPLE_EXT,
                         NIL_EXT, STRING_EXT, LIST_EXT, BINARY_EXT, MAP_EXT, ATOM_UTF8_EXT, SMALL_ATOM_UTF8_EXT}
  {
    hide ReadBig, ParseMany, BigTerm, AtomTerm, BinaryWords, Integers, Cells, FloatWords, TupleOf, BoxedIntWords;
  }

  // ---- the parser reads only what stands for a term ----

  lemma Slices(mem: seq<u8>, pos: nat, end: nat, a: nat, z: nat)
    requires pos <= end <= |mem| && a <= z <= end - pos
    ensures mem[pos..end][a..z] == mem[pos + a..pos + z] && mem[pos..end][a..] == mem[pos + a..end]
  {
    var b := mem[pos..end];
    assert |b[a..]| == |mem[pos + a..end]| && forall i :: 0 <= i < |b[a..]| ==> b[a..][i] == mem[pos + a..end][i];
    assert forall i :: 0 <= i < z - a ==> b[a..z][i] == mem[pos + a..pos + z][i];
  }

  /** Whatever is read stands for the term it is read as, and its names are valid. */
  lemma {:induction false} ParseSound(env: Env, mem: seq<u8>, pos: nat)
    requires Parse(env, mem, pos).Done?
    ensures var r := Parse(env, mem, pos); Stands(r.value, mem[pos..pos + r.size], true) && NamesOk(env, r.value)
    decreases if pos <= |mem| then |mem| - pos else 0, 1
  {
    hide Parse, ParseMany, Stands, StandAll, NamesOk;
    AtOther(env, mem, pos);
    var tag := mem[pos];
    if tag == SMALL_TUPLE_EXT || tag == LARGE_TUPLE_EXT {
      TupleSound(env, mem, pos);
    } else if tag == LIST_EXT {
      ListSound(env, mem, pos);
    } else if tag == MAP_EXT {
      MapSound(env, mem, pos);
    } else if tag == SMALL_BIG_EXT {
      BigSound(env, mem, pos);
    } else if tag == STRING_EXT {
      StringSound(env, mem, pos);
    } else if tag == ATOM_UTF8_EXT || tag == SMALL_ATOM_UTF8_EXT {
      AtomSound(env, mem, pos);
    } else {
      LeafSound(env, mem, pos);
    }
  }

  lemma LeafSound(env: Env, mem: seq<u8>, pos: nat)
    requires Parse(env, mem, pos).Done? && pos < |mem|
    requires mem[pos] in {NEW_FLOAT_EXT, SMALL_INTEGER_EXT, INTEGER_EXT, NIL_EXT, BINARY_EXT}
    ensures var r := Parse(env, mem, pos); Stands(r.value, mem[pos..pos + r.size], true) && NamesOk(env, r.value)
  {
    hide Parse, ParseMany, U32, U64, Sum256;
    var end := pos + Parse(env, mem, pos).size;
    FieldsOf(mem, pos, end, 0);
    if end >= pos + 1 { FieldsOf(mem, pos, end, 1); }
    if mem[pos] == NEW_FLOAT_EXT {
      AtFloat(env, mem, pos);
    } else if mem[pos] == SMALL_INTEGER_EXT {
      AtByte(env, mem, pos);
    } else if mem[pos] == INTEGER_EXT {
      AtInt32(env, mem, pos);
    } else if mem[pos] == NIL_EXT {
      AtNil(env, mem, pos);
    } else {
      AtBinary(env, mem, pos);
      NotNegative(mem, pos + 1);
      Slices(mem, pos, end, 5, 5);
    }
  }

  lemma BigSound(env: Env, mem: seq<u8>, pos: nat)
    requires Parse(env, mem, pos).Done? && pos < |mem| && mem[pos] == SMALL_BIG_EXT
    ensures var r := Parse(env, mem, pos); Stands(r.value, mem[pos..pos + r.size], true) && NamesOk(env, r.value)
  {
    hide Parse, ParseMany, Sum256;
    AtBig(env, mem, pos);
    var end := pos + Parse(env, mem, pos).size;
    Slices(mem, pos, end, 3, 3);
  }

  lemma StringSound(env: Env, mem: seq<u8>, pos: nat)
    requires Parse(env, mem, pos).Done? && pos < |mem| && mem[pos] == STRING_EXT
    ensures var r := Parse(env, mem, pos); Stands(r.value, mem[pos..pos + r.size], true) && NamesOk(env, r.value)
  {
    hide Parse, ParseMany, U16, AllNamesOk;
    AtString(env, mem, pos);
    var r := Parse(env, mem, pos);
    FieldsOf(mem, pos, pos + r.size, 0);
    FieldsOf(mem, pos, pos + r.size, 1);
    IntegersOk(env, mem[pos + 3..pos + r.size]);
  }

  lemma {:induction false} IntegersOk(env: Env, s: seq<u8>)
    ensures AllNamesOk(env, Integers(s))
  {
    if |s| > 0 {
      assert Integers(s)[1..] == Integers(s[1..]);
      IntegersOk(env, s[1..]);
    }
  }

  lemma AtomSound(env: Env, mem: seq<u8>, pos: nat)
    requires Parse(env, mem, pos).Done? && pos < |mem| && mem[pos] in {ATOM_UTF8_EXT, SMALL_ATOM_UTF8_EXT}
    ensures var r := Parse(env, mem, pos); Stands(r.value, mem[pos..pos + r.size], true) && NamesOk(env, r.value)
  {
    hide Parse, ParseMany, U16;
    AtAtom(env, mem, pos);
    if mem[pos] == ATOM_UTF8_EXT { ShortNotNegative(mem, pos + 1); }
    var end, head := pos + Parse(env, mem, pos).size, if mem[pos] == ATOM_UTF8_EXT then 3 else 2;
    FieldsOf(mem, pos, end, 0);
    FieldsOf(mem, pos, end, 1);
    Slices(mem, pos, end, head, head);
  }

  lemma {:induction false} TupleSound(env: Env, mem: seq<u8>, pos: nat)
    requires Parse(env, mem, pos).Done? && pos < |mem| && mem[pos] in {SMALL_TUPLE_EXT, LARGE_TUPLE_EXT}
    ensures var r := Parse(env, mem, pos); Stands(r.value, mem[pos..pos + r.size], true) && NamesOk(env, r.value)
    decreases |mem| - pos, 0
  {
    hide Parse, ParseMany, U32, StandAll, AllNamesOk;
    AtTuple(env, mem, pos);
    var end, head := pos + Parse(env, mem, pos).size, if mem[pos] == SMALL_TUPLE_EXT then 2 else 5;
    FieldsOf(mem, pos, end, 0);
    FieldsOf(mem, pos, end, 1);
    Slices(mem, pos, end, head, head);
    ManySound(env, mem, pos + head, if mem[pos] == SMALL_TUPLE_EXT then mem[pos + 1] else U32(mem, pos + 1));
  }

  lemma {:induction false} MapSound(env: Env, mem: seq<u8>, pos: nat)
    requires Parse(env, mem, pos).Done? && pos < |mem| && mem[pos] == MAP_EXT
    ensures var r := Parse(env, mem, pos); Stands(r.value, mem[pos..pos + r.size], true) && NamesOk(env, r.value)
    decreases |mem| - pos, 0
  {
    hide Parse, ParseMany, U32, StandAll, AllNamesOk;
    AtMap(env, mem, pos);
    var end := pos + Parse(env, mem, pos).size;
    FieldsOf(mem, pos, end, 0);
    FieldsOf(mem, pos, end, 1);
    Slices(mem, pos, end, 5, 5);
    NotNegative(mem, pos + 1);
    ManySound(env, mem, pos + 5, 2 * U32(mem, pos + 1));
  }

  lemma NotNegative(mem: seq<u8>, i: nat)
    requires i + 4 <= |mem|
    ensures U32(mem, i) >= 0
  {}

  lemma ShortNotNegative(mem: seq<u8>, i: nat)
    requires i + 2 <= |mem|
    ensures U16(mem, i) >= 0
  {}

  lemma {:induction false} ListSound(env: Env, mem: seq<u8>, pos: nat)
    requires Parse(env, mem, pos).Done? && pos < |mem| && mem[pos] == LIST_EXT
    ensures var r := Parse(env, mem, pos); Stands(r.value, mem[pos..pos + r.size], true) && NamesOk(env, r.value)
    decreases |mem| - pos, 0
  {
    hide Parse, ParseMany, U32, StandAll, Stands, AllNamesOk, NamesOk, Cells;
    AtList(env, mem, pos);
    NotNegative(mem, pos + 1);
    var n, end := U32(mem, pos + 1), pos + Parse(env, mem, pos).size;
    FieldsOf(mem, pos, end, 0);
    FieldsOf(mem, pos, end, 1);
    if n == 0 {
      NoCells(env, mem[pos..end]);
    } else {
      var items := ParseMany(env, mem, pos + 5, n);
      var mid := pos + 5 + items.size;
      var tail := Parse(env, mem, mid);
      ManySound(env, mem, pos + 5, n);
      ParseSound(env, mem, mid);
      Slices(mem, pos, end, 5, mid - pos);
      Slices(mem, pos, end, mid - pos, end - pos);
      CellsStand(env, items.value, tail.value, mem[pos..end], mid - pos);
    }
  }

  lemma NoCells(env: Env, b: seq<u8>)
    requires |b| == 5 && b[0] == LIST_EXT && U32(b, 1) == 0
    ensures Stands(Nil, b, true) && NamesOk(env, Nil)
  {}

  /** Elements and what follows them make a list. */
  lemma CellsStand(env: Env, items: seq<Term>, tail: Term, b: seq<u8>, k: nat)
    requires 5 <= k < |b| && b[0] == LIST_EXT && U32(b, 1) == |items| > 0
    requires StandAll(items, b[5..k], true) && Stands(tail, b[k..], true)
    requires AllNamesOk(env, items) && NamesOk(env, tail)
    ensures Stands(Cells(items, tail), b, true) && NamesOk(env, Cells(items, tail))
  {
    hide StandAll, AllNamesOk;
    if tail.List? {
      var all := items + tail.items;
      ListTail(tail, b[k..]);
      assert all[..|items|] == items && all[|items|..] == tail.items;
      assert After(all, tail.tail, |items|) == tail;
      NamesJoin(env, items, tail.items);
      ListStands(all, tail.tail, b, k);
    } else {
      assert items[..|items|] == items && After(items, tail, |items|) == tail;
      ListStands(items, tail, b, k);
    }
  }

  lemma ListTail(t: Term, b: seq<u8>)
    requires t.List? && Stands(t, b, true)
    ensures |t.items| > 0 && !t.tail.List?
  {}

  lemma ListStands(items: seq<Term>, tail: Term, b: seq<u8>, k: nat)
    requires |items| > 0 && !tail.List? && 5 <= k < |b| && b[0] == LIST_EXT && 0 < U32(b, 1) <= |items|
    requires StandAll(items[..U32(b, 1)], b[5..k], true) && Stands(After(items, tail, U32(b, 1)), b[k..], true)
    ensures Stands(List(items, tail), b, true)
  {
    hide StandAll, U32;
  }

  lemma {:induction false} NamesJoin(env: Env, a: seq<Term>, b: seq<Term>)
    requires AllNamesOk(env, a) && AllNamesOk(env, b)
    ensures AllNamesOk(env, a + b)
  {
    if |a| == 0 {
      assert a + b == b;
    } else {
      assert (a + b)[1..] == a[1..] + b;
      NamesJoin(env, a[1..], b);
    }
  }

  lemma {:induction false} ManySound(env: Env, mem: seq<u8>, pos: nat, count: nat)
    requires pos <= |mem| && ParseMany(env, mem, pos, count).Done?
    ensures var r := ParseMany(env, mem, pos, count);
            StandAll(r.value, mem[pos..pos + r.size], true) && AllNamesOk(env, r.value)
    decreases |mem| - pos, 2
  {
    hide Parse, Stands, StandAll, NamesOk, AllNamesOk;
    if count == 0 {
      NoneStand(env, mem[pos..pos]);
    } else {
      var one := Parse(env, mem, pos);
      var mid := pos + one.size;
      var rest := ParseMany(env, mem, mid, count - 1);
      var end := mid + rest.size;
      ParseSound(env, mem, pos);
      ManySound(env, mem, mid, count - 1);
      Slices(mem, pos, end, 0, mid - pos);
      Slices(mem, pos, end, mid - pos, end - pos);
      OneMoreStands(env, one.value, rest.value, mem[pos..end], one.size);
    }
  }

  lemma NoneStand(env: Env, b: seq<u8>)
    requires b == []
    ensures StandAll([], b, true) && AllNamesOk(env, [])
  {}

  lemma OneMoreStands(env: Env, t: Term, ts: seq<Term>, b: seq<u8>, k: nat)
    requires 0 < k <= |b| && Stands(t, b[0..k], true) && StandAll(ts, b[k..], true)
    requires NamesOk(env, t) && AllNamesOk(env, ts)
    ensures StandAll([t] + ts, b, true) && AllNamesOk(env, [t] + ts)
  {
    hide Stands, NamesOk;
    assert b[0..k] == b[..k] && ([t] + ts)[1..] == ts && ([t] + ts)[0] == t;
  }

  // ---- and all of it ----

  /** What stands for a term with valid names is read as that term, to its last byte. */
  lemma {:induction false} StandsRead(env: Env, t: Term, mem: seq<u8>, pos: nat, end: nat)
    requires pos <= end <= |mem| && Stands(t, mem[pos..end], true) && NamesOk(env, t)
    ensures var r := Parse(env, mem, pos); pos < end && r.Done? && r.value == t && r.size == end - pos
    decreases end - pos, 1
  {
    hide Parse, ParseMany, Stands, StandAll, NamesOk;
    match t
    case Int(_) => IntRead(env, t, mem, pos, end);
    case Float(_) => FloatRead(env, t, mem, pos, end);
    case Atom(_) => AtomRead(env, t, mem, pos, end);
    case Tuple(_) => TupleRead(env, t, mem, pos, end);
    case Nil => NilRead(env, mem, pos, end);
    case List(_, _) => ListRead(env, t, mem, pos, end);
    case Binary(_) => BinaryRead(env, t, mem, pos, end);
    case Map(_) => MapRead(env, t, mem, pos, end);
  }

  lemma IntRead(env: Env, t: Term, mem: seq<u8>, pos: nat, end: nat)
    requires pos <= end <= |mem| && t.Int? && Stands(t, mem[pos..end], true)
    ensures var r := Parse(env, mem, pos); pos < end && r.Done? && r.value == t && r.size == end - pos
  {
    hide Parse, U32, Sum256;
    var b := mem[pos..end];
    assert |b| > 0 && b[0] == mem[pos];
    FieldsOf(mem, pos, end, 1);
    if b[0] == SMALL_INTEGER_EXT {
      AtByte(env, mem, pos);
    } else if b[0] == INTEGER_EXT {
      AtInt32(env, mem, pos);
    } else {
      AtBig(env, mem, pos);
      Slices(mem, pos, end, 3, 3);
    }
  }

  lemma FloatRead(env: Env, t: Term, mem: seq<u8>, pos: nat, end: nat)
    requires pos <= end <= |mem| && t.Float? && Stands(t, mem[pos..end], true)
    ensures var r := Parse(env, mem, pos); pos < end && r.Done? && r.value == t && r.size == end - pos
  {
    hide Parse, U64;
    FieldsOf(mem, pos, end, 1);
    AtFloat(env, mem, pos);
  }

  lemma AtomRead(env: Env, t: Term, mem: seq<u8>, pos: nat, end: nat)
    requires pos <= end <= |mem| && t.Atom? && Stands(t, mem[pos..end], true) && NamesOk(env, t)
    ensures var r := Parse(env, mem, pos); pos < end && r.Done? && r.value == t && r.size == end - pos
  {
    hide Parse, U16;
    FieldsOf(mem, pos, end, 1);
    AtAtom(env, mem, pos);
    var head := if mem[pos] == ATOM_UTF8_EXT then 3 else 2;
    Slices(mem, pos, end, head, head);
  }

  lemma NilRead(env: Env, mem: seq<u8>, pos: nat, end: nat)
    requires pos <= end <= |mem| && Stands(Nil, mem[pos..end], true)
    ensures var r := Parse(env, mem, pos); pos < end && r.Done? && r.value == Nil && r.size == end - pos
  {
    hide Parse, U32;
    var b := mem[pos..end];
    assert |b| > 0 && b[0] == mem[pos];
    if b[0] == NIL_EXT {
      AtNil(env, mem, pos);
    } else {
      FieldsOf(mem, pos, end, 1);
      AtList(env, mem, pos);
    }
  }

  lemma BinaryRead(env: Env, t: Term, mem: seq<u8>, pos: nat, end: nat)
    requires pos <= end <= |mem| && t.Binary? && Stands(t, mem[pos..end], true)
    ensures var r := Parse(env, mem, pos); pos < end && r.Done? && r.value == t && r.size == end - pos
  {
    hide Parse, U32;
    FieldsOf(mem, pos, end, 1);
    AtBinary(env, mem, pos);
    Slices(mem, pos, end, 5, 5);
  }

  lemma {:induction false} TupleRead(env: Env, t: Term, mem: seq<u8>, pos: nat, end: nat)
    requires pos <= end <= |mem| && t.Tuple? && Stands(t, mem[pos..end], true) && NamesOk(env, t)
    ensures var r := Parse(env, mem, pos); pos < end && r.Done? && r.value == t && r.size == end - pos
    decreases end - pos, 0
  {
    hide Parse, ParseMany, U32, StandAll, AllNamesOk;
    FieldsOf(mem, pos, end, 1);
    AtTuple(env, mem, pos);
    var head := if mem[pos] == SMALL_TUPLE_EXT then 2 else 5;
    Slices(mem, pos, end, head, head);
    AllRead(env, t.elems, mem, pos + head, end);
  }

  lemma {:induction false} MapRead(env: Env, t: Term, mem: seq<u8>, pos: nat, end: nat)
    requires pos <= end <= |mem| && t.Map? && Stands(t, mem[pos..end], true) && NamesOk(env, t)
    ensures var r := Parse(env, mem, pos); pos < end && r.Done? && r.value == t && r.size == end - pos
    decreases end - pos, 0
  {
    hide Parse, ParseMany, U32, StandAll, AllNamesOk;
    FieldsOf(mem, pos, end, 1);
    AtMap(env, mem, pos);
    Slices(mem, pos, end, 5, 5);
    AllRead(env, t.entries, mem, pos + 5, end);
  }

  lemma {:induction false} ListRead(env: Env, t: Term, mem: seq<u8>, pos: nat, end: nat)
    requires pos <= end <= |mem| && t.List? && Stands(t, mem[pos..end], true) && NamesOk(env, t)
    ensures var r := Parse(env, mem, pos); pos < end && r.Done? && r.value == t && r.size == end - pos
    decreases end - pos, 0
  {
    hide Parse, ParseMany, Stands, StringStands, StandAll, AllNamesOk, Cells, U32;
    var b := mem[pos..end];
    if StringStands(t.items, t.tail, b) {
      StringRead(env, t, mem, pos, end);
    } else {
      var k := ListSplit(t, b, true);
      var n := U32(b, 1);
      assert b[0] == mem[pos];
      FieldsOf(mem, pos, end, 1);
      AtList(env, mem, pos);
      Slices(mem, pos, end, 5, k);
      Slices(mem, pos, end, k, end - pos);
      NamesCut(env, t.items, n);
      AllRead(env, t.items[..n], mem, pos + 5, pos + k);
      StandsRead(env, After(t.items, t.tail, n), mem, pos + k, end);
      CellsBack(t.items, t.tail, n);
    }
  }

  lemma ListSplit(t: Term, b: seq<u8>, lenient: bool) returns (k: nat)
    requires t.List? && Stands(t, b, lenient) && !StringStands(t.items, t.tail, b)
    ensures 5 <= k < |b| && b[0] == LIST_EXT && 0 < U32(b, 1) <= |t.items| && !t.tail.List?
    ensures StandAll(t.items[..U32(b, 1)], b[5..k], lenient)
    ensures Stands(After(t.items, t.tail, U32(b, 1)), b[k..], lenient)
  {
    hide StringStands, StandAll, U32;
    var n := U32(b, 1);
    k :| 5 <= k < |b| && StandAll(t.items[..n], b[5..k], lenient) && Stands(After(t.items, t.tail, n), b[k..], lenient);
  }

  lemma CellsBack(items: seq<Term>, tail: Term, n: nat)
    requires 0 < n <= |items| && !tail.List?
    ensures Cells(items[..n], After(items, tail, n)) == List(items, tail)
  {
    assert items[..n] + items[n..] == items;
    if n == |items| { assert items[..n] == items; }
  }

  lemma {:induction false} NamesCut(env: Env, ts: seq<Term>, n: nat)
    requires n <= |ts| && AllNamesOk(env, ts)
    ensures AllNamesOk(env, ts[..n]) && AllNamesOk(env, ts[n..])
  {
    if n > 0 {
      NamesCut(env, ts[1..], n - 1);
      assert ts[..n][1..] == ts[1..][..n - 1] && ts[n..] == ts[1..][n - 1..];
    } else {
      assert ts[0..] == ts;
    }
  }

  lemma StringRead(env: Env, t: Term, mem: seq<u8>, pos: nat, end: nat)
    requires pos <= end <= |mem| && t.List? && StringStands(t.items, t.tail, mem[pos..end])
    ensures var r := Parse(env, mem, pos); pos < end && r.Done? && r.value == t && r.size == end - pos
  {
    hide Parse, U16;
    FieldsOf(mem, pos, end, 1);
    AtString(env, mem, pos);
    var s := mem[pos + 3..end];
    assert |Integers(s)| == |t.items| && forall i :: 0 <= i < |s| ==> Integers(s)[i] == t.items[i];
  }

  lemma {:induction false} AllRead(env: Env, ts: seq<Term>, mem: seq<u8>, pos: nat, end: nat)
    requires pos <= end <= |mem| && StandAll(ts, mem[pos..end], true) && AllNamesOk(env, ts)
    ensures var r := ParseMany(env, mem, pos, |ts|); r.Done? && r.value == ts && r.size == end - pos
    decreases end - pos, 2
  {
    hide Parse, Stands, NamesOk;
    var b := mem[pos..end];
    if |ts| > 0 {
      var k :| 0 < k <= |b| && Stands(ts[0], b[..k], true) && StandAll(ts[1..], b[k..], true);
      Slices(mem, pos, end, 0, k);
      Slices(mem, pos, end, k, end - pos);
      assert b[0..k] == b[..k];
      StandsRead(env, ts[0], mem, pos, pos + k);
      AllRead(env, ts[1..], mem, pos + k, end);
      ParseManyFirst(env, mem, pos, |ts| - 1);
      assert [ts[0]] + ts[1..] == ts;
    }
  }

  /** The parser reads exactly the bytes that stand for a term with valid names. */
  lemma ParseIsFormat(env: Env, mem: seq<u8>, pos: nat, end: nat, t: Term)
    requires pos <= end <= |mem|
    ensures (Parse(env, mem, pos).Done? && Parse(env, mem, pos).value == t && Parse(env, mem, pos).size == end - pos)
            <==> Stands(t, mem[pos..end], true) && NamesOk(env, t)
  {
    hide Parse, Stands, NamesOk;
    if Stands(t, mem[pos..end], true) && NamesOk(env, t) { StandsRead(env, t, mem, pos, end); }
    if Parse(env, mem, pos).Done? { ParseSound(env, mem, pos); }
  }

  /** Bytes stand for one term only. */
  lemma OneTerm(t: Term, u: Term, b: seq<u8>)
    requires Stands(t, b, true) && Stands(u, b, true)
    ensures t == u
  {
    hide Parse, Stands;
    var env := Env(Bits64, true, _ => true);
    AnyNames(env, t);
    AnyNames(env, u);
    assert b[0..|b|] == b;
    StandsRead(env, t, b, 0, |b|);
    StandsRead(env, u, b, 0, |b|);
  }

  lemma {:induction false} AnyNames(env: Env, t: Term)
    requires forall name :: env.utf8(name)
    ensures NamesOk(env, t)
  {
    match t
    case Tuple(elems) => AllAnyNames(env, elems);
    case List(items, tail) =>
      AllAnyNames(env, items);
      AnyNames(env, tail);
    case Map(entries) => AllAnyNames(env, entries);
    case _ =>
  }

  lemma {:induction false} AllAnyNames(env: Env, ts: seq<Term>)
    requires forall name :: env.utf8(name)
    ensures AllNamesOk(env, ts)
  {
    if |ts| > 0 {
      AnyNames(env, ts[0]);
      AllAnyNames(env, ts[1..]);
    }
  }

  /** The format itself is read as well. */
  lemma {:induction false} Lenient(t: Term, b: seq<u8>)
    requires Stands(t, b, false)
    ensures Stands(t, b, true)
    decreases |b|, 0
  {
    hide U32, Sum256, StringStands;
    match t
    case Tuple(elems) => AllLenient(elems, if b[0] == SMALL_TUPLE_EXT then b[2..] else b[5..]);
    case Map(entries) => AllLenient(entries, b[5..]);
    case List(items, tail) =>
      if !StringStands(items, tail, b) {
        var n := U32(b, 1);
        var k :| 5 <= k < |b| && StandAll(items[..n], b[5..k], false) && Stands(After(items, tail, n), b[k..], false);
        AllLenient(items[..n], b[5..k]);
        Lenient(After(items, tail, n), b[k..]);
      }
    case _ =>
  }

  lemma {:induction false} AllLenient(ts: seq<Term>, b: seq<u8>)
    requires StandAll(ts, b, false)
    ensures StandAll(ts, b, true)
    decreases |b|, 1
  {
    hide Stands;
    if |ts| > 0 {
      var k :| 0 < k <= |b| && Stands(ts[0], b[..k], false) && StandAll(ts[1..], b[k..], false);
      Lenient(ts[0], b[..k]);
      AllLenient(ts[1..], b[k..]);
    }
  }

  // ---- what the serializer writes ----

  /** Tag, a number of two, four or eight bytes, and the rest. */
  lemma HeadFields(tag: u8, n: nat, w: nat, rest: seq<u8>)
    requires w in {2, 4, 8}
    ensures var b := [tag] + Big(n, w) + rest;
            && |b| == 1 + w + |rest| && b[0] == tag && b[1 + w..] == rest
            && (w == 2 && n < 0x1_0000 ==> U16(b, 1) == n)
            && (w == 4 && n < 0x1_0000_0000 ==> U32(b, 1) == n)
            && (w == 8 && n < 0x1_0000_0000_0000_0000 ==> U64(b, 1) == n)
  {
    hide Big, ReadBig, U16, U32, U64;
    var b := [tag] + Big(n, w) + rest;
    assert b[1..1 + w] == Big(n, w);
    BigReads(n);
    ReadAt(b, 1);
    Below(n);
  }

  lemma Below(n: nat)
    ensures n < 0x1_0000 ==> n % 0x1_0000 == n
    ensures n < 0x1_0000_0000 ==> n % 0x1_0000_0000 == n
    ensures n < 0x1_0000_0000_0000_0000 ==> n % 0x1_0000_0000_0000_0000 == n
  {}

  /** What the serializer writes for a term stands for it. */
  lemma {:induction false} EncodeStands(env: Env, t: Term)
    requires WellFormed(env, t) && Encodable(t)
    ensures Stands(t, Encode(t), false) && |Encode(t)| > 0
    decreases t, 1
  {
    hide Encode, Stands, WellFormed, Encodable;
    match t
    case Int(_) => EncodeIntStands(env, t);
    case Tuple(_) => EncodeTupleStands(env, t);
    case List(_, _) => EncodeListStands(env, t);
    case Map(_) => EncodeMapStands(env, t);
    case _ => EncodeLeafStands(env, t);
  }

  lemma EncodeLeafStands(env: Env, t: Term)
    requires WellFormed(env, t) && (t.Float? || t.Atom? || t.Nil? || t.Binary?)
    ensures Stands(t, Encode(t), false) && |Encode(t)| > 0
  {
    hide Big, U16, U32, U64;
    match t
    case Float(bits) =>
      HeadFields(70, bits, 8, []);
      assert [70] + Big(bits, 8) + [] == [70] + Big(bits, 8);
    case Atom(name) =>
      if |name| >= 256 { HeadFields(118, |name|, 2, name); }
    case Binary(data) => HeadFields(109, |data|, 4, data);
    case _ =>
  }

  lemma EncodeIntStands(env: Env, t: Term)
    requires t.Int? && WellFormed(env, t)
    ensures Stands(t, Encode(t), false) && |Encode(t)| > 0
  {
    hide Big, Little, U32, Sum256, EncodeInt, Pow;
    var v := t.v;
    if 0 <= v < 256 {
      ByteEncoding(v);
    } else if IsInt32(v) {
      Int32Encoding(v);
      var n := if v < 0 then v + 0x1_0000_0000 else v;
      HeadFields(98, n, 4, []);
      TopByte(Encode(t));
    } else {
      BigStands(v);
    }
  }

  lemma ByteEncoding(v: int)
    requires 0 <= v < 256
    ensures EncodeInt(v) == [97, v]
  {}

  lemma TopByte(b: seq<u8>)
    requires |b| == 5
    ensures b[1] < 128 <==> U32(b, 1) < 0x8000_0000
  {}

  lemma BigStands(v: int)
    requires Abs(v) < Pow(256, 32) && !IsInt32(v)
    ensures IntStands(v, EncodeInt(v), false) && |EncodeInt(v)| > 0
  {
    hide Big, Little, Sum256, EncodeInt, Pow, NumBytes, Val;
    var bytes := Little(Abs(v));
    BigEncoding(v);
    LittleVal(Abs(v));
    NumBytesBound(Abs(v), 32);
    EtfProof.OneByte(|bytes|);
    SumIsVal(bytes, |bytes|);
    assert bytes[..|bytes|] == bytes;
    assert EncodeInt(v)[3..] == bytes;
  }

  lemma {:induction false} EncodeTupleStands(env: Env, t: Term)
    requires t.Tuple? && WellFormed(env, t) && Encodable(t)
    ensures Stands(t, Encode(t), false) && |Encode(t)| > 0
    decreases t, 0
  {
    hide Big, U32, EncodeAll, StandAll, AllWellFormed, AllEncodable;
    var elems := t.elems;
    EncodeAllStand(env, elems);
    var b, rest := Encode(t), EncodeAll(elems);
    if |elems| < 256 {
      assert b == [104, |elems|] + rest && b[2..] == rest;
    } else {
      HeadFields(105, |elems|, 4, rest);
    }
  }

  lemma {:induction false} EncodeMapStands(env: Env, t: Term)
    requires t.Map? && WellFormed(env, t) && Encodable(t)
    ensures Stands(t, Encode(t), false) && |Encode(t)| > 0
    decreases t, 0
  {
    hide Big, U32, EncodeAll, StandAll, AllWellFormed, AllEncodable;
    EncodeAllStand(env, t.entries);
    HeadFields(116, |t.entries| / 2, 4, EncodeAll(t.entries));
  }

  lemma {:induction false} EncodeListStands(env: Env, t: Term)
    requires t.List? && WellFormed(env, t) && Encodable(t)
    ensures Stands(t, Encode(t), false) && |Encode(t)| > 0
    decreases t, 0
  {
    hide Big, U16, U32, EncodeAll, StandAll, AllWellFormed, AllEncodable, Stands, Encode;
    var items, tail := t.items, t.tail;
    if IsString(items, tail) {
      EncodeStringStands(env, t);
    } else {
      ListFacts(env, t);
      var a, z := EncodeAll(items), Encode(tail);
      EncodeAllStand(env, items);
      EncodeStands(env, tail);
      HeadFields(108, |items|, 4, a + z);
      var b := Encode(t);
      assert b[5..] == a + z && b[5..5 + |a|] == a && b[5 + |a|..] == z;
      assert items[..|items|] == items && After(items, tail, |items|) == tail;
      StrictList(items, tail, b, 5 + |a|);
    }
  }

  lemma StrictList(items: seq<Term>, tail: Term, b: seq<u8>, k: nat)
    requires |items| > 0 && !tail.List? && 5 <= k < |b| && b[0] == LIST_EXT && U32(b, 1) == |items|
    requires StandAll(items[..U32(b, 1)], b[5..k], false) && Stands(After(items, tail, U32(b, 1)), b[k..], false)
    ensures Stands(List(items, tail), b, false)
  {
    hide StandAll, U32;
  }

  lemma EncodeStringStands(env: Env, t: Term)
    requires t.List? && IsString(t.items, t.tail) && 0 < |t.items| < 0x1_0000
    ensures Stands(t, Encode(t), false) && |Encode(t)| > 0
  {
    hide Big, U16;
    HeadFields(107, |t.items|, 2, Chars(t.items));
    var b := Encode(t);
    assert forall i :: 0 <= i < |t.items| ==> b[3 + i] == b[3..][i];
  }

  lemma {:induction false} EncodeAllStand(env: Env, ts: seq<Term>)
    requires AllWellFormed(env, ts) && AllEncodable(ts)
    ensures StandAll(ts, EncodeAll(ts), false)
    decreases ts
  {
    hide Encode, Stands, WellFormed, Encodable;
    if |ts| > 0 {
      EncodeStands(env, ts[0]);
      EncodeAllStand(env, ts[1..]);
      var b, k := EncodeAll(ts), |Encode(ts[0])|;
      assert b[..k] == Encode(ts[0]) && b[k..] == EncodeAll(ts[1..]);
    }
  }

  // ---- heap words ----

  /** Bytes of a machine word. */
  function WordBytes(arch: Arch): nat { if arch == Bits64 then 8 else 4 }

  /** Whole words for so many bytes. */
  function WordsFor(arch: Arch, bytes: nat): nat { (bytes + WordBytes(arch) - 1) / WordBytes(arch) }

  /** Small integers have all bits of a word but four. */
  lemma SmallBits(arch: Arch, v: int)
    ensures var half: int := Pow(2, 8 * WordBytes(arch) - 5); IsSmall(arch, v) <==> -half <= v < half
  {
    TwoTo27();
    PowAdd(2, 27, 27);
    PowAdd(2, 54, 5);
  }

  lemma TwoTo27()
    ensures Pow(2, 27) == 0x800_0000 && Pow(2, 5) == 32
  {
    assert Pow(2, 9) == 512;
    PowAdd(2, 9, 9);
    PowAdd(2, 18, 9);
  }

  /** A header and the payload in whole words: eight bytes of a float; four or eight of an
      integer that is not small; digits rounded up to eight bytes, and never as many words as a
      boxed 64-bit integer has. Binaries of eight words' bytes or more are kept elsewhere. */
  lemma HeapLayout(env: Env, v: int, digits: nat, bytes: nat)
    requires digits > 0
    ensures FloatWords(env.arch) == 1 + WordsFor(env.arch, 8)
    ensures BoxedIntWords(env.arch, v) ==
            if IsSmall(env.arch, v) then 0
            else 1 + WordsFor(env.arch, if env.arch == Bits32 && IsInt32(v) then 4 else 8)
    ensures var w := 1 + WordsFor(env.arch, WordsFor(Bits64, 4 * digits) * 8);
            BigWords(env.arch, digits) == if w == 1 + WordsFor(env.arch, 8) then w + 1 else w
    ensures BinaryWords(env, bytes) ==
            if env.copy && bytes < 8 * WordBytes(env.arch) then 2 + WordsFor(env.arch, bytes) else 6
  {
    hide WordsFor, FloatWords, BoxedIntWords, BigWords, BinaryWords;
    SmallWords(env.arch);
    FloatLayout(env.arch, v);
    DigitsLayout(env.arch, digits);
    BinaryLayout(env, bytes);
  }

  lemma SmallWords(arch: Arch)
    ensures WordsFor(arch, 4) == 1 && WordsFor(arch, 8) == if arch == Bits64 then 1 else 2
  {
    if arch == Bits64 { assert WordBytes(arch) == 8; } else { assert WordBytes(arch) == 4; }
  }

  lemma FloatLayout(arch: Arch, v: int)
    ensures FloatWords(arch) == if arch == Bits64 then 2 else 3
    ensures BoxedIntWords(arch, v) == if IsSmall(arch, v) then 0 else if arch == Bits32 && !IsInt32(v) then 3 else 2
  {}

  lemma DigitsLayout(arch: Arch, digits: nat)
    requires digits > 0
    ensures var w := 1 + WordsFor(arch, WordsFor(Bits64, 4 * digits) * 8);
            BigWords(arch, digits) == if w == (if arch == Bits64 then 2 else 3) then w + 1 else w
  {
    var q := (4 * digits + 7) / 8;
    assert WordsFor(Bits64, 4 * digits) == q;
    EightsIn(arch, q);
  }

  lemma EightsIn(arch: Arch, q: nat)
    ensures WordsFor(arch, 8 * q) == 8 * q / WordBytes(arch) == if arch == Bits64 then q else 2 * q
  {
    if arch == Bits64 {
      DivModUnique(8 * q + 7, 8, q, 7);
      DivModUnique(8 * q, 8, q, 0);
    } else {
      DivModUnique(8 * q + 3, 4, 2 * q, 3);
      DivModUnique(8 * q, 4, 2 * q, 0);
    }
  }

  lemma BinaryLayout(env: Env, bytes: nat)
    ensures BinaryWords(env, bytes) ==
            if env.copy && bytes < 8 * WordBytes(env.arch) then 2 + WordsFor(env.arch, bytes) else 6
  {
    if env.arch == Bits64 { assert WordBytes(env.arch) == 8; } else { assert WordBytes(env.arch) == 4; }
  }

  // ---- whole binaries ----

  /** term_to_binary writes the version and bytes of the format. */
  lemma BinaryStands(env: Env, t: Term)
    requires WellFormed(env, t) && Encodable(t)
    ensures var bin := TermToBinary(t); |bin| > 1 && bin[0] == VERSION && Stands(t, bin[1..], false)
  {
    hide Encode, Stands, WellFormed, Encodable;
    EncodeStands(env, t);
    assert TermToBinary(t)[1..] == Encode(t);
  }

  /** What binary_to_term makes of a binary begins with the version, and what it used of the rest
      stands for the term. */
  lemma BinaryReads(env: Env, bin: seq<u8>)
    requires BinaryToTerm(env, bin).Done?
    ensures var r := BinaryToTerm(env, bin);
            1 < r.size <= |bin| && bin[0] == VERSION && Stands(r.value, bin[1..r.size], true) && NamesOk(env, r.value)
  {
    hide Parse, Validate, Stands, NamesOk;
    ParseSound(env, bin, 1);
  }

  // ---- the validator takes the format, and asks for enough memory ----

  /** Accepted with this size and at least so many words. */
  ghost predicate Takes(c: Check, size: int, words: int) { c.Accept? && c.size == size && c.words >= words }

  lemma ByteOf(mem: seq<u8>, i: nat)
    requires i < |mem|
    ensures ByteAt(mem, i) == mem[i]
  {}

  lemma FieldAt(mem: seq<u8>, i: nat)
    ensures i + 2 <= |mem| ==> ReadBig(BytesAt(mem, i, 2)) == U16(mem, i)
    ensures i + 4 <= |mem| ==> ReadBig(BytesAt(mem, i, 4)) == U32(mem, i)
  {
    hide ReadBig, BytesAt, U16, U32;
    ReadAt(mem, i);
    if i + 2 <= |mem| { BytesAtMemory(mem, i, 2); }
    if i + 4 <= |mem| { BytesAtMemory(mem, i, 4); }
  }

  /** What stands for a term, strictly, is accepted to its last byte, and the words counted are
      enough to parse it. */
  lemma {:induction false} FormatAccepted(env: Env, t: Term, mem: seq<u8>, pos: nat, end: nat, remaining: nat)
    requires pos <= end <= |mem| && Stands(t, mem[pos..end], false) && NamesOk(env, t) && end - pos <= remaining
    ensures Parse(env, mem, pos).Done?
    ensures Takes(Validate(env, mem, pos, remaining), end - pos, Parse(env, mem, pos).words)
    decreases end - pos, 1
  {
    hide Parse, Validate, Stands, NamesOk, Takes;
    Lenient(t, mem[pos..end]);
    StandsRead(env, t, mem, pos, end);
    match t
    case Int(_) => IntTaken(env, t, mem, pos, end, remaining);
    case Tuple(_) => TupleTaken(env, t, mem, pos, end, remaining);
    case List(_, _) => ListTaken(env, t, mem, pos, end, remaining);
    case Map(_) => MapTaken(env, t, mem, pos, end, remaining);
    case _ => LeafTaken(env, t, mem, pos, end, remaining);
  }

  lemma LeafTaken(env: Env, t: Term, mem: seq<u8>, pos: nat, end: nat, remaining: nat)
    requires pos <= end <= |mem| && Stands(t, mem[pos..end], false) && NamesOk(env, t) && end - pos <= remaining
    requires (t.Float? || t.Atom? || t.Nil? || t.Binary?) && Parse(env, mem, pos).Done?
    ensures Takes(Validate(env, mem, pos, remaining), end - pos, Parse(env, mem, pos).words)
  {
    hide Parse, ReadBig, BytesAt, ByteAt, ValidateMany, BinaryWords, FloatWords, Val, U16, U32, U64, BoxedIntWords,
      BigWords;
    var b := mem[pos..end];
    assert |b| > 0 && b[0] == mem[pos];
    FieldsOf(mem, pos, end, 1);
    ByteOf(mem, pos);
    if pos + 1 < end { ByteOf(mem, pos + 1); }
    FieldAt(mem, pos + 1);
    match t
    case Float(_) => AtFloat(env, mem, pos);
    case Atom(_) => AtAtom(env, mem, pos);
    case Nil => AtNil(env, mem, pos);
    case Binary(_) => AtBinary(env, mem, pos);
  }

  lemma IntTaken(env: Env, t: Term, mem: seq<u8>, pos: nat, end: nat, remaining: nat)
    requires pos <= end <= |mem| && Stands(t, mem[pos..end], false) && end - pos <= remaining
    requires t.Int? && Parse(env, mem, pos).Done?
    ensures Takes(Validate(env, mem, pos, remaining), end - pos, Parse(env, mem, pos).words)
  {
    hide Parse, Validate, Sum256, U32, Takes;
    var b := mem[pos..end];
    assert |b| > 0 && b[0] == mem[pos];
    if b[0] == SMALL_INTEGER_EXT {
      ByteTaken(env, mem, pos, remaining);
    } else if b[0] == INTEGER_EXT {
      Int32Taken(env, mem, pos, remaining);
    } else {
      assert b[1] == mem[pos + 1];
      BigTaken(env, mem, pos, remaining);
    }
  }

  lemma ByteTaken(env: Env, mem: seq<u8>, pos: nat, remaining: nat)
    requires pos + 2 <= |mem| && mem[pos] == SMALL_INTEGER_EXT && remaining >= 2 && Parse(env, mem, pos).Done?
    ensures Takes(Validate(env, mem, pos, remaining), 2, Parse(env, mem, pos).words)
  {
    hide Parse, ReadBig, BytesAt, ByteAt, ValidateMany, Val;
    ByteOf(mem, pos);
    AtByte(env, mem, pos);
  }

  lemma Int32Taken(env: Env, mem: seq<u8>, pos: nat, remaining: nat)
    requires pos + 5 <= |mem| && mem[pos] == INTEGER_EXT && remaining >= 5 && Parse(env, mem, pos).Done?
    ensures Takes(Validate(env, mem, pos, remaining), 5, Parse(env, mem, pos).words)
  {
    hide Parse, ReadBig, BytesAt, ByteAt, ValidateMany, Val, BoxedIntWords;
    ByteOf(mem, pos);
    FieldAt(mem, pos + 1);
    AtInt32(env, mem, pos);
  }

  lemma BigTaken(env: Env, mem: seq<u8>, pos: nat, remaining: nat)
    requires pos + 3 <= |mem| && mem[pos] == SMALL_BIG_EXT && mem[pos + 1] <= 32
    requires pos + 3 + mem[pos + 1] as int <= |mem| && remaining >= 3 + mem[pos + 1] as int
    requires Parse(env, mem, pos).Done?
    ensures Takes(Validate(env, mem, pos, remaining), 3 + mem[pos + 1] as int, Parse(env, mem, pos).words)
  {
    hide Parse, Validate, BytesAt, ByteAt, Val, BoxedIntWords, BigWords, Sum256, Pow;
    var n: int := mem[pos + 1];
    var bytes := mem[pos + 3..pos + 3 + n];
    ByteOf(mem, pos);
    ByteOf(mem, pos + 1);
    ByteOf(mem, pos + 2);
    BytesAtMemory(mem, pos + 3, n);
    AtBig(env, mem, pos);
    SumIsVal(bytes, n);
    assert bytes[..n] == bytes;
    ValBound(bytes, 256);
    ValidateBig(env, mem, pos, remaining, mem[pos + 1], mem[pos + 2], bytes);
    BigRoom(env.arch, Val(bytes, 256), n, mem[pos + 2] != 0);
  }

  /** Words counted by the bytes are enough for the digits. */
  lemma BigRoom(arch: Arch, m: int, n: nat, negative: bool)
    requires 0 <= m < Pow(256, n) && n <= 32
    ensures var v := if negative then -m else m;
            (if IsInt64(v) then BoxedIntWords(arch, v) else BigWords(arch, Digits32(m)))
            <= if n <= 8 && IsInt64(v) then BoxedIntWords(arch, v) else BigWords(arch, (n + 3) / 4)
  {
    hide Pow, Digits32;
    DigitsFromBytes(m);
    NumBytesBound(m, n);
    BigWordsGrow(arch, (NumBytes(m) + 3) / 4, (n + 3) / 4);
  }

  lemma BigWordsGrow(arch: Arch, a: nat, b: nat)
    requires a <= b
    ensures BigWords(arch, a) <= BigWords(arch, b)
    ensures 3 <= b ==> 3 <= BigWords(arch, b)
  {
    hide BigWords;
    BigWordsIs(arch, a);
    BigWordsIs(arch, b);
    EighthsGrow(a, b);
  }

  lemma BigWordsIs(arch: Arch, n: nat)
    ensures var q := (4 * n + 7) / 8;
            BigWords(arch, n) == if arch == Bits64 then (if q == 1 then 3 else q + 1)
                                 else if q == 1 then 4 else 2 * q + 1
  {
    EightsIn(arch, (4 * n + 7) / 8);
  }

  lemma EighthsGrow(a: nat, b: nat)
    requires a <= b
    ensures (4 * a + 7) / 8 <= (4 * b + 7) / 8
    ensures 3 <= b ==> 2 <= (4 * b + 7) / 8
  {}

  lemma {:induction false} CountFits(ts: seq<Term>, b: seq<u8>, lenient: bool)
    requires StandAll(ts, b, lenient)
    ensures |ts| <= |b|
    decreases |ts|
  {
    hide Stands;
    if |ts| > 0 {
      var k :| 0 < k <= |b| && Stands(ts[0], b[..k], lenient) && StandAll(ts[1..], b[k..], lenient);
      CountFits(ts[1..], b[k..], lenient);
    }
  }

  lemma {:induction false} TupleTaken(env: Env, t: Term, mem: seq<u8>, pos: nat, end: nat, remaining: nat)
    requires pos <= end <= |mem| && Stands(t, mem[pos..end], false) && NamesOk(env, t) && end - pos <= remaining
    requires t.Tuple? && Parse(env, mem, pos).Done?
    ensures Takes(Validate(env, mem, pos, remaining), end - pos, Parse(env, mem, pos).words)
    decreases end - pos, 0
  {
    hide Parse, ParseMany, Validate, ValidateMany, StandAll, AllNamesOk, U32;
    var b := mem[pos..end];
    assert b[0] == mem[pos];
    FieldsOf(mem, pos, end, 1);
    var head := if b[0] == SMALL_TUPLE_EXT then 2 else 5;
    Slices(mem, pos, end, head, head);
    CountFits(t.elems, b[head..], false);
    AtTuple(env, mem, pos);
    var left := if head == 2 then remaining - 1 else remaining - 5;
    AllTaken(env, t.elems, mem, pos + head, end, left, 1);
    CheckTuple(env, mem, pos, remaining);
  }

  lemma CheckTuple(env: Env, mem: seq<u8>, pos: nat, remaining: nat)
    requires pos < |mem| && (mem[pos] == SMALL_TUPLE_EXT || mem[pos] == LARGE_TUPLE_EXT)
    requires var head := if mem[pos] == SMALL_TUPLE_EXT then 2 else 5;
             pos + head <= |mem| && remaining >= head
    requires (if mem[pos] == SMALL_TUPLE_EXT then mem[pos + 1] as int else U32(mem, pos + 1)) <=
             remaining - if mem[pos] == SMALL_TUPLE_EXT then 1 else 5
    ensures Validate(env, mem, pos, remaining) ==
            if mem[pos] == SMALL_TUPLE_EXT then
              Plus(2, 1, ValidateMany(env, mem, pos + 2, remaining - 1, mem[pos + 1], 1))
            else Plus(5, 1, ValidateMany(env, mem, pos + 5, remaining - 5, U32(mem, pos + 1), 1))
  {
    hide ReadBig, BytesAt, ByteAt, ValidateMany, Val, U32, Plus;
    ByteOf(mem, pos);
    ByteOf(mem, pos + 1);
    FieldAt(mem, pos + 1);
    if mem[pos] == LARGE_TUPLE_EXT { NotNegative(mem, pos + 1); }
  }

  lemma {:induction false} MapTaken(env: Env, t: Term, mem: seq<u8>, pos: nat, end: nat, remaining: nat)
    requires pos <= end <= |mem| && Stands(t, mem[pos..end], false) && NamesOk(env, t) && end - pos <= remaining
    requires t.Map? && Parse(env, mem, pos).Done?
    ensures Takes(Validate(env, mem, pos, remaining), end - pos, Parse(env, mem, pos).words)
    decreases end - pos, 0
  {
    hide Parse, ParseMany, Validate, ValidateMany, StandAll, AllNamesOk, U32;
    var b := mem[pos..end];
    assert b[0] == mem[pos];
    FieldsOf(mem, pos, end, 1);
    NotNegative(mem, pos + 1);
    Slices(mem, pos, end, 5, 5);
    CountFits(t.entries, b[5..], false);
    AtMap(env, mem, pos);
    AllTaken(env, t.entries, mem, pos + 5, end, remaining - 5, 1);
    CheckMap(env, mem, pos, remaining);
  }

  lemma CheckMap(env: Env, mem: seq<u8>, pos: nat, remaining: nat)
    requires pos + 5 <= |mem| && mem[pos] == MAP_EXT && remaining >= 5 && 0 <= U32(mem, pos + 1) <= remaining - 5
    ensures Validate(env, mem, pos, remaining) ==
            Plus(5, 4, ValidateMany(env, mem, pos + 5, remaining - 5, 2 * U32(mem, pos + 1), 1))
  {
    hide ReadBig, BytesAt, ByteAt, ValidateMany, Val, U32, Plus;
    ByteOf(mem, pos);
    FieldAt(mem, pos + 1);
  }

  lemma {:induction false} ListTaken(env: Env, t: Term, mem: seq<u8>, pos: nat, end: nat, remaining: nat)
    requires pos <= end <= |mem| && Stands(t, mem[pos..end], false) && NamesOk(env, t) && end - pos <= remaining
    requires t.List? && Parse(env, mem, pos).Done?
    ensures Takes(Validate(env, mem, pos, remaining), end - pos, Parse(env, mem, pos).words)
    decreases end - pos, 0
  {
    hide Parse, ParseMany, Validate, ValidateMany, Stands, StringStands, StandAll, AllNamesOk, Cells, U32, Takes;
    var b := mem[pos..end];
    if StringStands(t.items, t.tail, b) {
      StringTaken(env, t, mem, pos, end, remaining);
    } else {
      var k := ListSplit(t, b, false);
      var n := U32(b, 1);
      assert b[0] == mem[pos];
      FieldsOf(mem, pos, end, 1);
      Slices(mem, pos, end, 5, k);
      Slices(mem, pos, end, k, end - pos);
      NamesCut(env, t.items, n);
      CountFits(t.items[..n], b[5..k], false);
      AtList(env, mem, pos);
      AllTaken(env, t.items[..n], mem, pos + 5, pos + k, remaining - 5, 2);
      FormatAccepted(env, After(t.items, t.tail, n), mem, pos + k, end, remaining - k);
      ListAdds(env, mem, pos, remaining, n, k, end);
    }
  }

  /** The parts of a list, put together. */
  lemma ListAdds(env: Env, mem: seq<u8>, pos: nat, remaining: nat, n: nat, k: nat, end: nat)
    requires 5 <= k && pos + k <= end <= |mem| && mem[pos] == LIST_EXT && U32(mem, pos + 1) == n > 0
    requires end - pos <= remaining && n <= remaining - 5 && Parse(env, mem, pos).Done?
    requires ParseMany(env, mem, pos + 5, n).Done? && ParseMany(env, mem, pos + 5, n).size == k - 5
    requires Parse(env, mem, pos + k).Done?
    requires Takes(ValidateMany(env, mem, pos + 5, remaining - 5, n, 2), k - 5,
                   ParseMany(env, mem, pos + 5, n).words + 2 * n)
    requires Takes(Validate(env, mem, pos + k, remaining - k), end - pos - k, Parse(env, mem, pos + k).words)
    ensures Takes(Validate(env, mem, pos, remaining), end - pos, Parse(env, mem, pos).words)
  {
    hide Parse, ParseMany, ReadBig, BytesAt, ByteAt, ValidateMany, Val, U32;
    ByteOf(mem, pos);
    FieldAt(mem, pos + 1);
    AtList(env, mem, pos);
  }

  lemma StringTaken(env: Env, t: Term, mem: seq<u8>, pos: nat, end: nat, remaining: nat)
    requires pos <= end <= |mem| && t.List? && StringStands(t.items, t.tail, mem[pos..end]) && end - pos <= remaining
    requires Parse(env, mem, pos).Done?
    ensures Takes(Validate(env, mem, pos, remaining), end - pos, Parse(env, mem, pos).words)
  {
    hide Parse, ReadBig, BytesAt, ByteAt, ValidateMany, Val, U16;
    var b := mem[pos..end];
    assert b[0] == mem[pos];
    FieldsOf(mem, pos, end, 1);
    ByteOf(mem, pos);
    FieldAt(mem, pos + 1);
    AtString(env, mem, pos);
  }

  lemma {:induction false} AllTaken(env: Env, ts: seq<Term>, mem: seq<u8>, pos: nat, end: nat, remaining: nat,
                                    each: nat)
    requires pos <= end <= |mem| && StandAll(ts, mem[pos..end], false) && AllNamesOk(env, ts) && end - pos <= remaining
    ensures ParseMany(env, mem, pos, |ts|).Done?
    ensures ParseMany(env, mem, pos, |ts|).size == end - pos && ParseMany(env, mem, pos, |ts|).value == ts
    ensures Takes(ValidateMany(env, mem, pos, remaining, |ts|, each), end - pos,
                  ParseMany(env, mem, pos, |ts|).words + each * |ts|)
    decreases end - pos, 2
  {
    hide Parse, ParseMany, Validate, ValidateMany, Stands, StandAll, NamesOk, AllNamesOk, Takes;
    var b := mem[pos..end];
    AllLenient(ts, b);
    AllRead(env, ts, mem, pos, end);
    if |ts| > 0 {
      var k := AllSplit(ts, b, false);
      FirstNames(env, ts);
      Slices(mem, pos, end, 0, k);
      Slices(mem, pos, end, k, end - pos);
      FormatAccepted(env, ts[0], mem, pos, pos + k, remaining);
      Lenient(ts[0], mem[pos..pos + k]);
      StandsRead(env, ts[0], mem, pos, pos + k);
      AllTaken(env, ts[1..], mem, pos + k, end, remaining - k, each);
      ParseManyFirst(env, mem, pos, |ts| - 1);
      MulDist(each, |ts| - 1, 1);
      TakesFirst(env, mem, pos, remaining, |ts| - 1, each, k, end - pos - k, Parse(env, mem, pos).words,
        ParseMany(env, mem, pos + k, |ts| - 1).words + each * (|ts| - 1));
    } else {
      TakesNone(env, mem, pos, remaining, each, ts, b);
    }
  }

  lemma AllSplit(ts: seq<Term>, b: seq<u8>, lenient: bool) returns (k: nat)
    requires |ts| > 0 && StandAll(ts, b, lenient)
    ensures 0 < k <= |b| && Stands(ts[0], b[0..k], lenient) && StandAll(ts[1..], b[k..], lenient)
  {
    hide Stands;
    k :| 0 < k <= |b| && Stands(ts[0], b[..k], lenient) && StandAll(ts[1..], b[k..], lenient);
    assert b[0..k] == b[..k];
  }

  lemma FirstNames(env: Env, ts: seq<Term>)
    requires |ts| > 0 && AllNamesOk(env, ts)
    ensures NamesOk(env, ts[0]) && AllNamesOk(env, ts[1..])
  {}

  lemma TakesNone(env: Env, mem: seq<u8>, pos: nat, remaining: nat, each: nat, ts: seq<Term>, b: seq<u8>)
    requires |ts| == 0 && StandAll(ts, b, false)
    ensures b == [] && ParseMany(env, mem, pos, 0) == Done([], 0, 0)
    ensures Takes(ValidateMany(env, mem, pos, remaining, 0, each), 0, 0) && each * |ts| == 0
  {}

  lemma TakesFirst(env: Env, mem: seq<u8>, pos: nat, remaining: nat, n: nat, each: nat, k: nat, rest: nat, w: nat,
                   ws: nat)
    requires k <= remaining && Takes(Validate(env, mem, pos, remaining), k, w)
    requires Takes(ValidateMany(env, mem, pos + k, remaining - k, n, each), rest, ws)
    ensures Takes(ValidateMany(env, mem, pos, remaining, n + 1, each), k + rest, w + ws + each)
  {
    hide Validate;
  }

  /** Nothing else is accepted. */
  lemma AcceptsOnly(env: Env, mem: seq<u8>, pos: nat, remaining: nat)
    requires Validate(env, mem, pos, remaining).Accept?
    ensures ByteAt(mem, pos) in {NEW_FLOAT_EXT, SMALL_INTEGER_EXT, INTEGER_EXT, SMALL_BIG_EXT, SMALL_TUPLE_EXT,
                                 LARGE_TUPLE_EXT, NIL_EXT, STRING_EXT, LIST_EXT, BINARY_EXT, MAP_EXT, ATOM_UTF8_EXT,
                                 SMALL_ATOM_UTF8_EXT}
  {
    hide ReadBig, BytesAt, ByteAt, ValidateMany, Val, Plus, BinaryWords, FloatWords, BoxedIntWords, BigWords;
  }

  /** binary_to_term takes the version and any bytes of the format for the term they stand for. */
  lemma BinaryTakes(env: Env, t: Term, b: seq<u8>)
    requires Stands(t, b, false) && NamesOk(env, t)
    ensures var r := BinaryToTerm(env, [VERSION] + b); r.Done? && r.value == t && r.size == 1 + |b|
  {
    hide Parse, Validate, Stands, NamesOk;
    var bin := [VERSION] + b;
    assert bin[1..|bin|] == b;
    Lenient(t, b);
    StandsRead(env, t, bin, 1, |bin|);
    FormatAccepted(env, t, bin, 1, |bin|, |bin| - 1);
  }
}
