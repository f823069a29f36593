/** External Term Format: what the serializer writes, what the validator accepts and
    what the parser reads, on values. */
module Etf {
  import opened Prelude
  import opened Digits
  import opened IntnBytes

  /** A term. A chain of cons cells is one List: its heads and the tail of the last
      cell. The entries of a map are keys and values in turn, as they are laid out. */
  datatype Term =
    | Int(v: int)
    | Float(bits: nat)
    | Atom(name: seq<u8>)
    | Tuple(elems: seq<Term>)
    | Nil
    | List(items: seq<Term>, tail: Term)
    | Binary(data: seq<u8>)
    | Map(entries: seq<Term>)

  datatype Arch = Bits32 | Bits64

  /** The machine, whether binaries are copied, and which atom names are valid UTF-8. */
  datatype Env = Env(arch: Arch, copy: bool, utf8: seq<u8> -> bool)

  // ---- numbers in bytes ----

  /** w bytes of n, most significant first; higher bytes are cut off. */
  function Big(n: nat, w: nat): (s: seq<u8>)
    ensures |s| == w
  {
    if w == 0 then [] else Big(n / 256, w - 1) + [n % 256]
  }

  function ReadBig(s: seq<u8>): nat {
    if |s| == 0 then 0 else ReadBig(s[..|s| - 1]) * 256 + s[|s| - 1]
  }

  predicate IsInt32(v: int) { -0x8000_0000 <= v < 0x8000_0000 }
  predicate IsInt64(v: int) { -0x8000_0000_0000_0000 <= v < 0x8000_0000_0000_0000 }

  // ---- serializing ----

  predicate IsByte(t: Term) { t.Int? && 0 <= t.v < 256 }

  /** term_is_string on a nonempty list. */
  predicate IsString(items: seq<Term>, tail: Term) {
    tail.Nil? && forall i :: 0 <= i < |items| ==> IsByte(items[i])
  }

  function Chars(items: seq<Term>): (s: seq<u8>)
    requires forall i :: 0 <= i < |items| ==> IsByte(items[i])
    ensures |s| == |items|
  {
    seq<u8>(|items|, i requires 0 <= i < |items| && IsByte(items[i]) => items[i].v)
  }

  function EncodeInt(v: int): seq<u8> {
    if 0 <= v < 256 then [97, v]
    else if IsInt32(v) then [98] + Big(if v < 0 then v + 0x1_0000_0000 else v, 4)
    else [110] + Big(|Little(Abs(v))|, 1) + [if v < 0 then 1 else 0] + Little(Abs(v))
  }

  function TupleHead(arity: nat): seq<u8> {
    if arity < 256 then [104, arity] else [105] + Big(arity, 4)
  }

  function Encode(t: Term): seq<u8> {
    match t
    case Int(v) => EncodeInt(v)
    case Float(bits) => [70] + Big(bits, 8)
    case Atom(name) => (if |name| >= 256 then [118] + Big(|name|, 2) else [119, |name|]) + name
    case Tuple(elems) => TupleHead(|elems|) + EncodeAll(elems)
    case Nil => [106]
    case List(items, tail) =>
      if IsString(items, tail) then [107] + Big(|items|, 2) + Chars(items)
      else [108] + Big(|items|, 4) + (EncodeAll(items) + Encode(tail))
    case Binary(data) => [109] + Big(|data|, 4) + data
    case Map(entries) => [116] + Big(|entries| / 2, 4) + EncodeAll(entries)
  }

  function EncodeAll(ts: seq<Term>): seq<u8> {
    if |ts| == 0 then [] else Encode(ts[0]) + EncodeAll(ts[1..])
  }

  /** The size pass of the serializer, which writes nothing. */
  function Size(t: Term): nat {
    match t
    case Int(v) => if 0 <= v < 256 then 2 else if IsInt32(v) then 5 else 3 + NumBytes(Abs(v))
    case Float(_) => 9
    case Atom(name) => if |name| >= 256 then 3 + |name| else 2 + |name|
    case Tuple(elems) => (if |elems| < 256 then 2 else 5) + SizeAll(elems)
    case Nil => 1
    case List(items, tail) => if IsString(items, tail) then 3 + |items| else 5 + SizeAll(items) + Size(tail)
    case Binary(data) => 5 + |data|
    case Map(entries) => 5 + SizeAll(entries)
  }

  function SizeAll(ts: seq<Term>): nat {
    if |ts| == 0 then 0 else Size(ts[0]) + SizeAll(ts[1..])
  }

  // ---- heap words ----

  /** Integers that need no box lie within this of zero. */
  function Half(arch: Arch): nat { if arch == Bits64 then 0x800_0000_0000_0000 else 0x800_0000 }

  predicate IsSmall(arch: Arch, v: int) { -(Half(arch) as int) <= v < Half(arch) }

  function BoxedIntWords(arch: Arch, v: int): nat {
    if IsSmall(arch, v) then 0 else if arch == Bits64 || IsInt32(v) then 2 else 3
  }

  /** BOXED_BIGINT_HEAP_SIZE of what term_bigint_size_requirements asks for n digits. */
  function BigWords(arch: Arch, n: nat): nat {
    var rounded := (4 * n + 7) / 8 * 8;
    match arch
    case Bits64 => if rounded / 8 == 1 then 3 else rounded / 8 + 1
    case Bits32 => if rounded / 4 == 2 then 4 else rounded / 4 + 1
  }

  function FloatWords(arch: Arch): nat { if arch == Bits64 then 2 else 3 }

  function BinaryWords(env: Env, n: nat): nat {
    if !env.copy then 6
    else match env.arch
      case Bits64 => if n < 64 then 2 + (n + 7) / 8 else 6
      case Bits32 => if n < 32 then 2 + (n + 3) / 4 else 6
  }

  // ---- parsing ----

  /** Undefined is where the parser reads outside the memory it is given, aborts, or
      builds a list of no cells from a string. */
  datatype Outcome<T> = Done(value: T, size: nat, words: nat) | Invalid | Undefined

  function Fits(mem: seq<u8>, pos: nat, n: nat): bool { pos + n <= |mem| }

  /** Magnitude of little-endian bytes; digits beyond the eighth are not counted. */
  function Magnitude(bytes: seq<u8>): nat {
    var counted := if |bytes| <= 32 then bytes else bytes[..32];
    ValBound(counted, 256);
    Val(counted, 256)
  }

  function Digits32(m: nat): nat { if m == 0 then 0 else 1 + Digits32(m / 0x1_0000_0000) }

  function BigTerm(arch: Arch, negative: bool, bytes: seq<u8>): Outcome<Term> {
    var m: int := Magnitude(bytes);
    var v := if negative then -m else m;
    if |bytes| / 4 >= 11 then Undefined
    else Done(Int(v), 3 + |bytes|, if IsInt64(v) then BoxedIntWords(arch, v) else BigWords(arch, Digits32(m)))
  }

  function Integers(s: seq<u8>): seq<Term> { seq(|s|, i requires 0 <= i < |s| => Int(s[i])) }

  /** The cells for these heads in front of a tail. */
  function Cells(items: seq<Term>, tail: Term): Term {
    if |items| == 0 then tail
    else if tail.List? then List(items + tail.items, tail.tail) else List(items, tail)
  }

  function AtomTerm(env: Env, name: seq<u8>, head: nat): Outcome<Term> {
    if env.utf8(name) then Done(Atom(name), head + |name|, 0) else Invalid
  }

  /** parse_external_terms: no bound but the memory itself. */
  function Parse(env: Env, mem: seq<u8>, pos: nat): (r: Outcome<Term>)
    ensures r.Done? ==> r.size >= 1 && pos + r.size <= |mem|
    ensures r.Done? && r.value.List? ==> |r.value.items| > 0
    decreases if pos <= |mem| then |mem| - pos else 0, 0
  {
    if !Fits(mem, pos, 1) then Undefined
    else
      var tag := mem[pos];
      if tag == 70 then
        if !Fits(mem, pos, 9) then Undefined else Done(Float(ReadBig(mem[pos + 1..pos + 9])), 9, FloatWords(env.arch))
      else if tag == 97 then
        if !Fits(mem, pos, 2) then Undefined else Done(Int(mem[pos + 1]), 2, 0)
      else if tag == 98 then
        if !Fits(mem, pos, 5) then Undefined
        else
          var n := ReadBig(mem[pos + 1..pos + 5]);
          var v := if n >= 0x8000_0000 then n - 0x1_0000_0000 else n;
          Done(Int(v), 5, BoxedIntWords(env.arch, v))
      else if tag == 110 then
        if !Fits(mem, pos, 3) then Undefined
        else
          var n: int := mem[pos + 1];
          if !Fits(mem, pos, 3 + n) then Undefined else BigTerm(env.arch, mem[pos + 2] != 0, mem[pos + 3..pos + 3 + n])
      else if tag == 104 then
        if !Fits(mem, pos, 2) then Undefined
        else TupleOf(ParseMany(env, mem, pos + 2, mem[pos + 1]), 2)
      else if tag == 105 then
        if !Fits(mem, pos, 5) then Undefined
        else TupleOf(ParseMany(env, mem, pos + 5, ReadBig(mem[pos + 1..pos + 5])), 5)
      else if tag == 106 then Done(Nil, 1, 0)
      else if tag == 107 then
        if !Fits(mem, pos, 3) then Undefined
        else
          var n := ReadBig(mem[pos + 1..pos + 3]);
          if n == 0 || !Fits(mem, pos, 3 + n) then Undefined
          else Done(List(Integers(mem[pos + 3..pos + 3 + n]), Nil), 3 + n, 2 * n)
      else if tag == 108 then
        if !Fits(mem, pos, 5) then Undefined
        else
          var n := ReadBig(mem[pos + 1..pos + 5]);
          match ParseMany(env, mem, pos + 5, n)
          case Done(items, size, words) =>
            if n == 0 then Done(Nil, 5, 0)
            else
              (match Parse(env, mem, pos + 5 + size)
               case Done(tail, tsize, twords) => Done(Cells(items, tail), 5 + size + tsize, words + 2 * n + twords)
               case Invalid => Invalid
               case Undefined => Undefined)
          case Invalid => Invalid
          case Undefined => Undefined
      else if tag == 109 then
        if !Fits(mem, pos, 5) then Undefined
        else
          var n := ReadBig(mem[pos + 1..pos + 5]);
          if !Fits(mem, pos, 5 + n) then Undefined
          else Done(Binary(mem[pos + 5..pos + 5 + n]), 5 + n, BinaryWords(env, n))
      else if tag == 116 then
        if !Fits(mem, pos, 5) then Undefined
        else
          var n := ReadBig(mem[pos + 1..pos + 5]);
          match ParseMany(env, mem, pos + 5, 2 * n)
          case Done(entries, size, words) => Done(Map(entries), 5 + size, words + 3 + 2 * n)
          case Invalid => Invalid
          case Undefined => Undefined
      else if tag == 118 then
        if !Fits(mem, pos, 3) then Undefined
        else
          var n := ReadBig(mem[pos + 1..pos + 3]);
          if !Fits(mem, pos, 3 + n) then Undefined else AtomTerm(env, mem[pos + 3..pos + 3 + n], 3)
      else if tag == 119 then
        if !Fits(mem, pos, 2) then Undefined
        else
          var n: int := mem[pos + 1];
          if !Fits(mem, pos, 2 + n) then Undefined else AtomTerm(env, mem[pos + 2..pos + 2 + n], 2)
      else Invalid
  }

  function TupleOf(r: Outcome<seq<Term>>, head: nat): (o: Outcome<Term>)
    ensures o.Done? ==> r.Done? && o.size == head + r.size
  {
    match r
    case Done(elems, size, words) => Done(Tuple(elems), head + size, words + 1 + |elems|)
    case Invalid => Invalid
    case Undefined => Undefined
  }

  /** count terms one after the other. */
  function ParseMany(env: Env, mem: seq<u8>, pos: nat, count: nat): (r: Outcome<seq<Term>>)
    ensures r.Done? ==> |r.value| == count && r.size >= count && (pos <= |mem| ==> pos + r.size <= |mem|)
    decreases if pos <= |mem| then |mem| - pos else 0, count
  {
    if count == 0 then Done([], 0, 0)
    else
      match Parse(env, mem, pos)
      case Done(t, size, words) =>
        (match ParseMany(env, mem, pos + size, count - 1)
         case Done(ts, rest, more) => Done([t] + ts, size + rest, words + more)
         case Invalid => Invalid
         case Undefined => Undefined)
      case Invalid => Invalid
      case Undefined => Undefined
  }

  // ---- validating ----

  datatype Check = Accept(size: nat, words: nat) | Reject

  /** A byte of memory; what lies beyond mem is not the caller's and reads as zero here. */
  function ByteAt(mem: seq<u8>, i: nat): u8 { if i < |mem| then mem[i] else 0 }

  function BytesAt(mem: seq<u8>, pos: nat, n: nat): (s: seq<u8>)
    ensures |s| == n
  {
    if n == 0 then [] else BytesAt(mem, pos, n - 1) + [ByteAt(mem, pos + n - 1)]
  }

  function Plus(head: nat, extra: nat, c: Check): Check {
    if c.Accept? then Accept(head + c.size, extra + c.words) else Reject
  }

  /** calculate_heap_usage: remaining is what the caller says is left. The header of a
      small tuple is counted as one byte. */
  function Validate(env: Env, mem: seq<u8>, pos: nat, remaining: nat): Check
    decreases remaining, 0
  {
    if remaining < 1 then Reject
    else
      var tag := ByteAt(mem, pos);
      if tag == 70 then if remaining < 9 then Reject else Accept(9, FloatWords(env.arch))
      else if tag == 97 then if remaining < 2 then Reject else Accept(2, 0)
      else if tag == 98 then
        if remaining < 5 then Reject
        else
          var n := ReadBig(BytesAt(mem, pos + 1, 4));
          Accept(5, BoxedIntWords(env.arch, if n >= 0x8000_0000 then n - 0x1_0000_0000 else n))
      else if tag == 110 then
        var n: int := ByteAt(mem, pos + 1);
        if remaining < 3 + n || n > 32 then Reject
        else
          var m := Val(BytesAt(mem, pos + 3, n), 256);
          var v := if ByteAt(mem, pos + 2) != 0 then -m else m;
          Accept(3 + n, if n <= 8 && IsInt64(v) then BoxedIntWords(env.arch, v) else BigWords(env.arch, (n + 3) / 4))
      else if tag == 118 then
        if remaining < 3 then Reject
        else
          var n := ReadBig(BytesAt(mem, pos + 1, 2));
          if remaining - 3 < n then Reject else Accept(3 + n, 0)
      else if tag == 104 then
        var arity := ByteAt(mem, pos + 1);
        if remaining - 1 < arity then Reject
        else Plus(2, 1, ValidateMany(env, mem, pos + 2, remaining - 1, arity, 1))
      else if tag == 105 then
        if remaining < 5 then Reject
        else
          var arity := ReadBig(BytesAt(mem, pos + 1, 4));
          if remaining - 5 < arity then Reject
          else Plus(5, 1, ValidateMany(env, mem, pos + 5, remaining - 5, arity, 1))
      else if tag == 106 then Accept(1, 0)
      else if tag == 107 then
        if remaining < 3 then Reject
        else
          var n := ReadBig(BytesAt(mem, pos + 1, 2));
          if remaining - 3 < n then Reject else Accept(3 + n, 2 * n)
      else if tag == 108 then
        if remaining < 5 then Reject
        else
          var n := ReadBig(BytesAt(mem, pos + 1, 4));
          if remaining - 5 < n then Reject
          else
            match ValidateMany(env, mem, pos + 5, remaining - 5, n, 2)
            case Accept(size, words) =>
              if remaining - 5 < size then Reject
              else
                (match Validate(env, mem, pos + 5 + size, remaining - 5 - size)
                 case Accept(tsize, twords) =>
                   if remaining - 5 - size < tsize then Reject else Accept(5 + size + tsize, words + twords)
                 case Reject => Reject)
            case Reject => Reject
      else if tag == 109 then
        if remaining < 5 then Reject
        else
          var n := ReadBig(BytesAt(mem, pos + 1, 4));
          if remaining - 5 < n then Reject else Accept(5 + n, BinaryWords(env, n))
      else if tag == 116 then
        if remaining < 5 then Reject
        else
          var n := ReadBig(BytesAt(mem, pos + 1, 4));
          if remaining - 5 < n then Reject
          else Plus(5, 4, ValidateMany(env, mem, pos + 5, remaining - 5, 2 * n, 1))
      else if tag == 119 then
        if remaining < 2 then Reject
        else
          var n: int := ByteAt(mem, pos + 1);
          if remaining - 2 < n then Reject else Accept(2 + n, 0)
      else Reject
  }

  /** count terms, each with this many words of its own in the container. */
  function ValidateMany(env: Env, mem: seq<u8>, pos: nat, remaining: nat, count: nat, each: nat): Check
    decreases remaining, count
  {
    if count == 0 then Accept(0, 0)
    else
      match Validate(env, mem, pos, remaining)
      case Accept(size, words) =>
        if remaining < size then Reject
        else Plus(size, words + each, ValidateMany(env, mem, pos + size, remaining - size, count - 1, each))
      case Reject => Reject
  }

  // ---- whole binaries ----

  /** erlang:term_to_binary */
  function TermToBinary(t: Term): seq<u8> { [131] + Encode(t) }

  /** erlang:binary_to_term with the bytes it used. */
  function BinaryToTerm(env: Env, bin: seq<u8>): Outcome<Term> {
    if |bin| == 0 || bin[0] != 131 then Invalid
    else
      match Validate(env, bin, 1, |bin| - 1)
      case Reject => Invalid
      case Accept(_, _) =>
        (match Parse(env, bin, 1)
         case Done(t, size, words) => Done(t, size + 1, words)
         case Invalid => Invalid
         case Undefined => Undefined)
  }
}
