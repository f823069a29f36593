/** Multi-precision integers: sign and magnitude, the magnitude a sequence of
    32-bit digits, least significant first. */
module Intn {
  import opened Prelude
  import opened Digits
  import opened Division

  type u32 = x: int | 0 <= x < 0x1_0000_0000

  datatype Sign = Positive | Negative

  /** Value of a magnitude. */
  function V32(s: seq<int>): int { Val(s, 0x1_0000_0000) }

  /** Value of a signed integer. */
  function Signed(sign: Sign, s: seq<int>): int { if sign == Negative then -V32(s) else V32(s) }

  function Max(x: nat, y: nat): nat { if x > y then x else y }

  function Flip(sign: Sign): Sign { if sign == Positive then Negative else Positive }

  /** 64-bit unsigned arithmetic keeps a value modulo 2^64. */
  function Wrap64(x: int): int { x % 0x1_0000_0000_0000_0000 }

  lemma V32Bound(s: seq<u32>)
    ensures 0 <= V32(s) < Pow(0x1_0000_0000, |s|)
  {
    ValBound(s, 0x1_0000_0000);
  }

  // ---- significant digits ----

  /** Number of digits up to the highest nonzero one. */
  function Significant(s: seq<int>): (k: nat)
    ensures k <= |s| && (k > 0 ==> s[k - 1] != 0)
    ensures forall i :: k <= i < |s| ==> s[i] == 0
  {
    if |s| == 0 then 0
    else if s[|s| - 1] != 0 then |s|
    else Significant(s[..|s| - 1])
  }

  /** count16 and intn_count_digits. */
  method CountDigits(s: seq<int>, len: nat) returns (count: nat)
    requires len <= |s|
    ensures count == Significant(s[..len])
  {
    var i := len - 1;
    while i >= 0 && s[i] == 0
      invariant -1 <= i < len
      invariant Significant(s[..len]) == Significant(s[..i + 1])
    {
      assert s[..i + 1][..i] == s[..i];
      i := i - 1;
    }
    count := i + 1;
  }

  /** Dropping leading zeros keeps the value. */
  lemma SignificantValue(s: seq<int>, b: nat)
    ensures Val(s, b) == Val(s[..Significant(s)], b)
  {
    var k := Significant(s);
    ValSplit(s, k, b);
    ValZeros(s[k..], b);
  }

  /** More significant digits mean a larger magnitude. */
  lemma LongerIsLarger(s: seq<int>, k: nat, b: nat)
    requires b > 0 && InBase(s, b) && k < |s| && s[k] != 0
    ensures Val(s, b) >= Pow(b, k)
  {
    ValSplit(s, k + 1, b);
    ValStep(s, k, b);
    ValBound(s[..k], b);
    ValBound(s[k + 1..], b);
    hide Val, Pow;
    MulMono(Pow(b, k), 1, s[k]);
    MulMono(Pow(b, k + 1), 0, Val(s[k + 1..], b));
  }

  // ---- multiplication ----

  /** A product step of 32-bit digits never exceeds 64 bits. */
  lemma ProductStep(u: int, v: int, w: int, k: int, t: int)
    requires 0 <= u < 0x1_0000_0000 && 0 <= v < 0x1_0000_0000
    requires 0 <= w < 0x1_0000_0000 && 0 <= k < 0x1_0000_0000
    requires t == Wrap64(Wrap64(Wrap64(u * v) + w) + k)
    ensures 0 <= t / 0x1_0000_0000 < 0x1_0000_0000
    ensures CarryStep(u, v, w, k, t % 0x1_0000_0000, t / 0x1_0000_0000, 0x1_0000_0000)
  {
    MulMono(u, 0, v);
    MulMono(u, v, 0xFFFF_FFFF);
    SumFits(u * v, w, k, t);
  }

  lemma SumFits(p: int, w: int, k: int, t: int)
    requires 0 <= p <= 0xFFFF_FFFE_0000_0001 && 0 <= w < 0x1_0000_0000 && 0 <= k < 0x1_0000_0000
    requires t == Wrap64(Wrap64(Wrap64(p) + w) + k)
    ensures 0 <= t / 0x1_0000_0000 < 0x1_0000_0000
    ensures p + w + k == t % 0x1_0000_0000 + 0x1_0000_0000 * (t / 0x1_0000_0000)
  {
    assert t == p + w + k;
  }

  /** Adds u times the digit v to the m digits of w at j and stores the carry above them. */
  method MultiplyRow(u: seq<u32>, v: u32, w: array<u32>, j: nat)
    requires j + |u| < w.Length
    modifies w
    ensures forall i :: 0 <= i < w.Length && !(j <= i <= j + |u|) ==> w[i] == old(w[i])
    ensures V32(w[j..j + |u| + 1]) == v * V32(u) + old(V32(w[j..j + |u|]))
  {
    hide Val, Pow, CarryStep;
    ghost var before := w[..];
    ghost var c := [0];
    var k := 0;
    for i := 0 to |u|
      invariant 0 <= k < 0x1_0000_0000 && |c| == i + 1 && c[0] == 0 && c[i] == k
      invariant forall x :: 0 <= x < w.Length && !(j <= x < j + i) ==> w[x] == before[x]
      invariant Carries(u[..i], v, before[j..j + i], c, w[j..j + i], 0x1_0000_0000)
    {
      var t := Wrap64(Wrap64(Wrap64(u[i] * v) + w[i + j]) + k);
      ProductStep(u[i], v, w[i + j], k, t);
      ghost var done := w[j..j + i];
      w[i + j] := t % 0x1_0000_0000;
      k := t / 0x1_0000_0000;
      CarriesSnoc(u[..i], v, before[j..j + i], c, done, 0x1_0000_0000, u[i], before[i + j], w[i + j], k);
      c := c + [k];
      assert u[..i + 1] == u[..i] + [u[i]];
      assert before[j..j + (i + 1)] == before[j..j + i] + [before[i + j]];
      assert w[j..j + (i + 1)] == done + [w[i + j]];
    }
    assert u[..|u|] == u;
    CarryChain(u, v, before[j..j + |u|], c, w[j..j + |u|], 0x1_0000_0000);
    ghost var low := w[j..j + |u|];
    w[j + |u|] := k;
    assert w[j..j + |u| + 1] == low + [k];
    ValSnoc(low, k, 0x1_0000_0000);
  }

  /** mulmnu32: schoolbook multiplication. */
  method MulU(u: seq<u32>, v: seq<u32>, w: array<u32>)
    requires |u| + |v| <= w.Length
    modifies w
    ensures V32(w[..|u| + |v|]) == V32(u) * V32(v)
    ensures forall i :: |u| + |v| <= i < w.Length ==> w[i] == old(w[i])
  {
    for i := 0 to |u|
      invariant forall x :: 0 <= x < i ==> w[x] == 0
      invariant forall x :: |u| + |v| <= x < w.Length ==> w[x] == old(w[x])
    {
      w[i] := 0;
    }
    ValZeros(w[..|u|], 0x1_0000_0000);
    assert V32(v[..0]) == 0;
    hide Val, Pow;
    for j := 0 to |v|
      invariant V32(w[..j + |u|]) == V32(u) * V32(v[..j])
      invariant forall x :: |u| + |v| <= x < w.Length ==> w[x] == old(w[x])
    {
      ghost var before := w[..j + |u|];
      assert before[j..] == w[j..j + |u|];
      MultiplyRow(u, v[j], w, j);
      assert w[..j + |u| + 1][..j] == before[..j];
      assert w[..j + |u| + 1][j..] == w[j..j + |u| + 1];
      RowAdded(before, w[..j + |u| + 1], u, v, j);
    }
    assert v[..|v|] == v;
  }

  lemma RowAdded(before: seq<int>, after: seq<int>, u: seq<int>, v: seq<int>, j: nat)
    requires j < |v| && j <= |before| && j <= |after| && before[..j] == after[..j]
    requires V32(before) == V32(u) * V32(v[..j])
    requires V32(after[j..]) == v[j] * V32(u) + V32(before[j..])
    ensures V32(after) == V32(u) * V32(v[..j + 1])
  {
    hide Val, Pow;
    ValSplit(before, j, 0x1_0000_0000);
    ValSplit(after, j, 0x1_0000_0000);
    ValStep(v, j, 0x1_0000_0000);
    MulDist(Pow(0x1_0000_0000, j), v[j] * V32(u), V32(before[j..]));
    MulDist(V32(u), V32(v[..j]), Pow(0x1_0000_0000, j) * v[j]);
    RowAlgebra(Pow(0x1_0000_0000, j), v[j], V32(u));
  }

  lemma RowAlgebra(p: int, v: int, u: int)
    ensures p * (v * u) == u * (p * v)
  {}

  // ---- comparison, addition, subtraction ----

  /** intn_cmpu: the sign of the difference of two magnitudes, leading zeros ignored. */
  method CmpU(a: seq<u32>, b: seq<u32>) returns (r: int)
    ensures r == if V32(a) < V32(b) then -1 else if V32(a) == V32(b) then 0 else 1
  {
    var la := CountDigits(a, |a|);
    var lb := CountDigits(b, |b|);
    assert a[..|a|] == a && b[..|b|] == b;
    hide Val, V32;
    if la > lb {
      LengthDecides(b, a);
      return 1;
    }
    if la < lb {
      LengthDecides(a, b);
      return -1;
    }
    TrimmedValue(a);
    TrimmedValue(b);
    var i := la;
    while i > 0
      invariant 0 <= i <= la && (forall x :: i <= x < la ==> a[x] == b[x])
    {
      if a[i - 1] != b[i - 1] { FirstDifference(a[..la], b[..la], i - 1); }
      if a[i - 1] > b[i - 1] { return 1; }
      if a[i - 1] < b[i - 1] { return -1; }
      i := i - 1;
    }
    assert a[..la] == b[..la];
    return 0;
  }

  lemma TrimmedValue(a: seq<u32>)
    ensures V32(a) == V32(a[..Significant(a)])
  {
    SignificantValue(a, 0x1_0000_0000);
  }

  /** Fewer significant digits, smaller magnitude. */
  lemma LengthDecides(a: seq<u32>, b: seq<u32>)
    requires Significant(a) < Significant(b)
    ensures V32(a) < V32(b)
  {
    hide Val, Pow;
    var la, lb := Significant(a), Significant(b);
    SignificantValue(a, 0x1_0000_0000);
    V32Bound(a[..la]);
    LongerIsLarger(b, lb - 1, 0x1_0000_0000);
    PowMono(0x1_0000_0000, la, lb - 1);
  }

  /** The highest differing digit decides. */
  lemma FirstDifference(a: seq<u32>, b: seq<u32>, k: nat)
    requires |a| == |b| && k < |a| && a[k + 1..] == b[k + 1..] && a[k] != b[k]
    ensures a[k] < b[k] <==> V32(a) < V32(b)
    ensures V32(a) != V32(b)
  {
    if a[k] < b[k] { FirstDifferenceLess(a, b, k); } else { FirstDifferenceLess(b, a, k); }
  }

  lemma FirstDifferenceLess(a: seq<u32>, b: seq<u32>, k: nat)
    requires |a| == |b| && k < |a| && a[k + 1..] == b[k + 1..] && a[k] < b[k]
    ensures V32(a) < V32(b)
  {
    hide Val, Pow;
    ValSplit(a, k + 1, 0x1_0000_0000);
    ValSplit(b, k + 1, 0x1_0000_0000);
    ValStep(a, k, 0x1_0000_0000);
    ValStep(b, k, 0x1_0000_0000);
    ValBound(a[..k], 0x1_0000_0000);
    ValBound(b[..k], 0x1_0000_0000);
    MulMono(Pow(0x1_0000_0000, k), a[k] + 1, b[k]);
    MulDist(Pow(0x1_0000_0000, k), a[k], 1);
  }

  /** Leading zeros up to length m. */
  function Pad(s: seq<int>, m: nat): (r: seq<int>)
    requires |s| <= m
    ensures |r| == m && (forall i :: 0 <= i < m ==> r[i] == if i < |s| then s[i] else 0)
  {
    s + seq(m - |s|, _ => 0)
  }

  lemma PadValue(s: seq<int>, m: nat, b: nat)
    requires |s| <= m
    ensures Val(Pad(s, m), b) == Val(s, b)
  {
    var r := Pad(s, m);
    ValSplit(r, |s|, b);
    ValZeros(r[|s|..], b);
    assert r[..|s|] == s;
  }

  /** Adds the digits both operands have. */
  method AddShared(a: seq<u32>, b: seq<u32>, ghost pb: seq<int>, ghost pa: seq<int>, n: nat, out: array<u32>)
    returns (carry: int, ghost c: seq<int>)
    requires n <= |a| && n <= |b| && n <= out.Length && n <= |pa| == |pb|
    requires forall i :: 0 <= i < n ==> pa[i] == a[i] && pb[i] == b[i]
    modifies out
    ensures 0 <= carry <= 1 && |c| == n + 1 && c[0] == 0 && c[n] == carry
    ensures Carries(pb[..n], 1, pa[..n], c, out[..n], 0x1_0000_0000)
    ensures forall x :: n <= x < out.Length ==> out[x] == old(out[x])
  {
    carry, c := 0, [0];
    var i := 0;
    while i < n
      invariant 0 <= i <= n && 0 <= carry <= 1 && |c| == i + 1 && c[0] == 0 && c[i] == carry
      invariant Carries(pb[..i], 1, pa[..i], c, out[..i], 0x1_0000_0000)
      invariant forall x :: i <= x < out.Length ==> out[x] == old(out[x])
    {
      var ai: int, bi: int := a[i], b[i];
      var temp := Wrap64(ai + bi + carry);
      ghost var done := out[..i];
      out[i] := temp % 0x1_0000_0000;
      carry := temp / 0x1_0000_0000;
      Extend(pb, pa, c, done, i, 1, out[i], carry);
      assert out[..i + 1] == done + [out[i]];
      c := c + [carry];
      i := i + 1;
    }
  }

  /** Carries on through the digits only the longer operand has. */
  method AddTail(longest: seq<u32>, ghost pb: seq<int>, ghost pa: seq<int>, start: nat, carry0: int,
                 ghost c0: seq<int>, out: array<u32>) returns (carry: int, ghost c: seq<int>)
    requires start <= |longest| == |pa| == |pb| && |longest| <= out.Length
    requires forall i :: start <= i < |longest| ==> pb[i] + pa[i] == longest[i]
    requires 0 <= carry0 <= 1 && |c0| == start + 1 && c0[0] == 0 && c0[start] == carry0
    requires Carries(pb[..start], 1, pa[..start], c0, out[..start], 0x1_0000_0000)
    modifies out
    ensures 0 <= carry <= 1 && |c| == |longest| + 1 && c[0] == 0 && c[|longest|] == carry
    ensures Carries(pb, 1, pa, c, out[..|longest|], 0x1_0000_0000)
    ensures forall x :: |longest| <= x < out.Length ==> out[x] == old(out[x])
  {
    carry, c := carry0, c0;
    var i := start;
    while i < |longest|
      invariant start <= i <= |longest| && 0 <= carry <= 1 && |c| == i + 1 && c[0] == 0 && c[i] == carry
      invariant Carries(pb[..i], 1, pa[..i], c, out[..i], 0x1_0000_0000)
      invariant forall x :: i <= x < out.Length ==> out[x] == old(out[x])
    {
      var temp := Wrap64(longest[i] + carry);
      ghost var done := out[..i];
      out[i] := temp % 0x1_0000_0000;
      carry := temp / 0x1_0000_0000;
      Extend(pb, pa, c, done, i, 1, out[i], carry);
      assert out[..i + 1] == done + [out[i]];
      c := c + [carry];
      i := i + 1;
    }
    assert pa[..|longest|] == pa && pb[..|longest|] == pb;
  }

  /** intn_addu: the digits written, at most one more than the longer operand. */
  method AddU(a: seq<u32>, b: seq<u32>, out: array<u32>) returns (len: nat)
    requires |a| >= 1 && |b| >= 1 && |a| < out.Length && |b| < out.Length
    modifies out
    ensures |a| <= len && |b| <= len <= out.Length && (len <= |a| + 1 || len <= |b| + 1)
    ensures V32(out[..len]) == V32(a) + V32(b)
    ensures forall i :: len <= i < out.Length ==> out[i] == old(out[i])
  {
    hide Val, Pow, Pad, Carries;
    var m := if |a| >= |b| then |a| else |b|;
    ghost var pa, pb := Pad(a, m), Pad(b, m);
    PadValue(a, m, 0x1_0000_0000);
    PadValue(b, m, 0x1_0000_0000);
    var n := if |a| <= |b| then |a| else |b|;
    var carry, c := AddShared(a, b, pb, pa, n, out);
    carry, c := AddTail(if |a| >= |b| then a else b, pb, pa, n, carry, c, out);
    var i := m;
    CarryChain(pb, 1, pa, c, out[..m], 0x1_0000_0000);
    if carry != 0 {
      ghost var done := out[..i];
      out[i] := carry;
      ValSnoc(done, carry, 0x1_0000_0000);
      assert out[..i + 1] == done + [carry];
      i := i + 1;
    }
    len := i;
  }

  /** One more position of a digit loop that reads d and a. */
  lemma Extend(d: seq<int>, a: seq<int>, c: seq<int>, out: seq<int>, i: nat, p: int, o: int, c': int)
    requires i < |d| == |a| && |c| == i + 1 && |out| == i
    requires Carries(d[..i], p, a[..i], c, out, 0x1_0000_0000)
    requires CarryStep(d[i], p, a[i], c[i], o, c', 0x1_0000_0000)
    ensures Carries(d[..i + 1], p, a[..i + 1], c + [c'], out + [o], 0x1_0000_0000)
  {
    CarriesSnoc(d[..i], p, a[..i], c, out, 0x1_0000_0000, d[i], a[i], o, c');
    assert d[..i + 1] == d[..i] + [d[i]] && a[..i + 1] == a[..i] + [a[i]];
  }

  /** The memory behind the first len digits of an operand is zero up to digit upTo. */
  ghost predicate ZerosBehind(a: seq<u32>, len: nat, upTo: nat) {
    forall i :: len <= i < upTo && i < |a| ==> a[i] == 0
  }

  /** Reading further changes the value unless zeros follow. */
  lemma ReadFurther(a: seq<u32>, len: nat, upTo: nat)
    requires len <= upTo <= |a|
    ensures V32(a[..len]) <= V32(a[..upTo])
    ensures V32(a[..upTo]) == V32(a[..len]) <==> ZerosBehind(a, len, upTo)
  {
    var more := a[len..upTo];
    assert a[..upTo] == a[..len] + more;
    ValAppend(a[..len], more, 0x1_0000_0000);
    V32Bound(more);
    if ZerosBehind(a, len, upTo) {
      ValZeros(more, 0x1_0000_0000);
    } else {
      var i :| len <= i < upTo && i < |a| && a[i] != 0;
      assert more[i - len] == a[i];
      LongerIsLarger(more, i - len, 0x1_0000_0000);
    }
    hide Val, Pow;
    MulMono(V32(more), 1, Pow(0x1_0000_0000, len));
    MulComm(V32(more), Pow(0x1_0000_0000, len));
  }

  /** The digits subtracted so far and the borrow. */
  ghost predicate Borrowed(pb: seq<int>, read: seq<int>, c: seq<int>, out: seq<int>, i: nat, borrow: int) {
    && i <= |pb| && i <= |read| && i <= |out| && 0 <= borrow <= 1 && |c| == i + 1 && c[0] == 0 && c[i] == -borrow
    && Carries(pb[..i], -1, read[..i], c, out[..i], 0x1_0000_0000)
  }

  lemma BorrowStep(pb: seq<int>, read: seq<int>, c: seq<int>, out: seq<int>, out': seq<int>, i: nat, borrow: int,
                   d: int)
    requires Borrowed(pb, read, c, out, i, borrow) && i < |pb| == |read| && i < |out| == |out'|
    requires d == read[i] - pb[i] - borrow && -0x1_0000_0000 <= d < 0x1_0000_0000
    requires out' == out[i := Wrap64(d) % 0x1_0000_0000]
    ensures var b' := Wrap64(d) / 0x8000_0000_0000_0000 % 2; Borrowed(pb, read, c + [-b'], out', i + 1, b')
  {
    BorrowWrap(d);
    var b' := Wrap64(d) / 0x8000_0000_0000_0000 % 2;
    hide Wrap64;
    Extend(pb, read, c, out[..i], i, -1, out'[i], -b');
    assert out'[..i + 1] == out[..i] + [out'[i]];
  }

  /** All digits subtracted: no borrow is left when the difference is not negative. */
  lemma BorrowDone(pb: seq<int>, read: seq<int>, c: seq<int>, out: seq<u32>, borrow: int)
    requires |pb| == |read| <= |out| && Borrowed(pb, read, c, out, |pb|, borrow) && V32(pb) <= V32(read)
    ensures V32(out[..|pb|]) == V32(read) - V32(pb)
  {
    hide Val, Pow;
    assert read[..|pb|] == read && pb[..|pb|] == pb;
    CarryChain(pb, -1, read, c, out[..|pb|], 0x1_0000_0000);
    V32Bound(out[..|pb|]);
    NoBorrowLeft(Pow(0x1_0000_0000, |pb|), borrow, V32(out[..|pb|]), V32(read) - V32(pb));
  }

  lemma NothingBorrowed(pb: seq<int>, read: seq<int>, out: seq<int>)
    ensures Borrowed(pb, read, [0], out, 0, 0)
  {}

  /** intn_subu: a is the memory from its first digit on, of which aLen digits are the
      operand. The loops read max(aLen, b_len) of them, so that digits behind a shorter
      operand count; None if memory ends before. */
  method SubU(a: seq<u32>, aLen: nat, b: seq<u32>, out: array<u32>) returns (len: Option<nat>)
    requires aLen <= |a| && aLen <= out.Length && |b| <= out.Length && V32(b) <= V32(a[..aLen])
    modifies out
    ensures len.None? <==> |b| > |a|
    ensures len.Some? ==> len.value == Max(aLen, |b|) && V32(out[..len.value]) == V32(a[..len.value]) - V32(b)
    ensures len.Some? ==> V32(out[..len.value]) >= V32(a[..aLen]) - V32(b)
    ensures len.Some? ==> (V32(out[..len.value]) == V32(a[..aLen]) - V32(b) <==> ZerosBehind(a, aLen, |b|))
    ensures forall i :: Max(aLen, |b|) <= i < out.Length ==> out[i] == old(out[i])
  {
    hide Val, Pow, Pad, Borrowed, Wrap64;
    ghost var top := Max(aLen, |b|);
    ghost var read: seq<int> := if |b| <= |a| then a[..top] else Pad(a, top);
    ghost var pb := Pad(b, top);
    PadValue(b, top, 0x1_0000_0000);
    LongEnough(a, aLen, |b|);
    if |b| <= |a| { ReadFurther(a, aLen, top); }
    var borrow := 0;
    ghost var c := [0];
    NothingBorrowed(pb, read, out[..]);
    var i := 0;
    while i < |b|
      invariant 0 <= i <= |b| && i <= |a| && 0 <= borrow <= 1 && Borrowed(pb, read, c, out[..], i, borrow)
      invariant forall x :: i <= x < out.Length ==> out[x] == old(out[x])
    {
      if i == |a| { return None; }
      ghost var before := out[..];
      var ai: int, bi: int := a[i], b[i];
      var temp := Wrap64(ai - bi - borrow);
      BorrowRange(ai - bi - borrow);
      out[i] := temp % 0x1_0000_0000;
      BorrowStep(pb, read, c, before, out[..], i, borrow, ai - bi - borrow);
      borrow := temp / 0x8000_0000_0000_0000 % 2;
      c := c + [-borrow];
      i := i + 1;
    }
    BorrowTail(a, aLen, pb, read, i, borrow, c, out);
    assert out[..][..top] == out[..top];
    len := Some(Max(aLen, |b|));
  }

  /** Borrows on through the digits only the larger operand has. */
  method BorrowTail(a: seq<u32>, aLen: nat, ghost pb: seq<int>, ghost read: seq<int>, start: nat, borrow0: int,
                    ghost c0: seq<int>, out: array<u32>)
    requires |pb| == |read| == Max(aLen, start) <= |a| && |pb| <= out.Length && read == a[..|pb|]
    requires forall i :: start <= i < aLen ==> pb[i] == 0
    requires Borrowed(pb, read, c0, out[..], start, borrow0) && V32(pb) <= V32(read)
    modifies out
    ensures V32(out[..][..|pb|]) == V32(read) - V32(pb)
    ensures forall x :: |pb| <= x < out.Length ==> out[x] == old(out[x])
  {
    BorrowIs(pb, read, c0, out[..], start, borrow0);
    hide Val, Borrowed, Wrap64;
    var borrow, i := borrow0, start;
    ghost var c := c0;
    while i < aLen
      invariant start <= i <= |pb| && 0 <= borrow <= 1 && Borrowed(pb, read, c, out[..], i, borrow)
      invariant forall x :: |pb| <= x < out.Length ==> out[x] == old(out[x])
    {
      ghost var before := out[..];
      var ai: int := a[i];
      var temp := Wrap64(ai - borrow);
      BorrowRange(ai - borrow);
      out[i] := temp % 0x1_0000_0000;
      BorrowStep(pb, read, c, before, out[..], i, borrow, ai - borrow);
      borrow := temp / 0x8000_0000_0000_0000 % 2;
      c := c + [-borrow];
      i := i + 1;
    }
    BorrowDone(pb, read, c, out[..], borrow);
  }

  lemma BorrowIs(pb: seq<int>, read: seq<int>, c: seq<int>, out: seq<int>, i: nat, borrow: int)
    requires Borrowed(pb, read, c, out, i, borrow)
    ensures 0 <= borrow <= 1
  {}

  lemma BorrowRange(d: int)
    requires -0x1_0000_0000 <= d < 0x1_0000_0000
    ensures 0 <= Wrap64(d) / 0x8000_0000_0000_0000 % 2 <= 1
  {}

  /** Bit 63 of the 64-bit difference is the borrow. */
  lemma BorrowWrap(d: int)
    requires -0x1_0000_0000 <= d < 0x1_0000_0000
    ensures Wrap64(d) / 0x8000_0000_0000_0000 % 2 == if d < 0 then 1 else 0
    ensures Wrap64(d) % 0x1_0000_0000 == if d < 0 then d + 0x1_0000_0000 else d
  {
    if d < 0 { assert Wrap64(d) == d + 0x1_0000_0000_0000_0000; } else { assert Wrap64(d) == d; }
  }

  lemma NoBorrowLeft(p: int, borrow: int, v: int, d: int)
    requires 0 <= borrow <= 1 && 0 <= v < p && d >= 0 && v + p * -borrow == d
    ensures borrow == 0 && v == d
  {}

  /** An operand: the memory from its first digit on, and how many digits are its own. */
  datatype Operand = Operand(mem: seq<u32>, len: nat, sign: Sign) {
    ghost predicate Valid() { 1 <= len <= |mem| }
    function Digits(): seq<u32> requires len <= |mem| { mem[..len] }
  }

  ghost function Worth(x: Operand): int
    requires x.Valid()
  {
    Signed(x.sign, x.Digits())
  }

  /** The operand that the smaller magnitude is taken from. */
  ghost function Larger(m: Operand, n: Operand): Operand
    requires m.Valid() && n.Valid()
  {
    if V32(n.Digits()) <= V32(m.Digits()) then m else n
  }

  /** A subtraction of magnitudes runs past the memory of the larger one. */
  ghost predicate ReadsPast(m: Operand, n: Operand)
    requires m.Valid() && n.Valid()
  {
    m.sign != n.sign && |Larger(m, n).mem| < Max(m.len, n.len)
  }

  /** Nothing but zeros is read behind the larger magnitude. */
  ghost predicate ReadsWell(m: Operand, n: Operand)
    requires m.Valid() && n.Valid()
  {
    m.sign == n.sign || ZerosBehind(Larger(m, n).mem, Larger(m, n).len, Max(m.len, n.len))
  }

  datatype Sum = PastEnd | Sum(len: nat, sign: Sign)

  /** intn_add on signed operands: the sum exactly if only zeros are read behind the larger
      magnitude, in particular if that is not the shorter operand. A zero result keeps the
      sign of m unless it is a single digit. */
  method Add(m: Operand, n: Operand, out: array<u32>) returns (r: Sum)
    requires m.Valid() && n.Valid() && m.len < out.Length && n.len < out.Length
    modifies out
    ensures r.PastEnd? <==> ReadsPast(m, n)
    ensures r.Sum? ==> 1 <= r.len <= out.Length
    ensures r.Sum? ==> (Signed(r.sign, out[..r.len]) == Worth(m) + Worth(n) <==> ReadsWell(m, n))
    ensures r.Sum? && m.sign != n.sign ==>
              var x := Larger(m, n);
              r.len == Max(m.len, n.len) &&
              Signed(r.sign, out[..r.len]) == Worth(m) + Worth(n) - Worth(x) + Signed(x.sign, x.mem[..r.len])
    ensures r.Sum? && V32(out[..r.len]) == 0 ==> (r.sign == Negative <==> m.sign == Negative && r.len > 1)
  {
    hide Val, ZerosBehind;
    var x, y := m.Digits(), n.Digits();
    var len: nat;
    var sign;
    if m.sign == n.sign {
      sign := m.sign;
      len := AddU(x, y, out);
    } else {
      var cmp := CmpU(x, y);
      var res;
      if cmp >= 0 {
        sign := m.sign;
        LongEnough(m.mem, m.len, n.len);
        res := SubU(m.mem, m.len, y, out);
      } else {
        sign := n.sign;
        LongEnough(n.mem, n.len, m.len);
        res := SubU(n.mem, n.len, x, out);
      }
      if res.None? { return PastEnd; }
      len := res.value;
    }
    if len == 1 {
      assert out[..1] == [out[0]];
      Single(out[0]);
    }
    if len == 1 && out[0] == 0 {
      sign := Positive;
    }
    r := Sum(len, sign);
  }

  /** Only a longer subtrahend is read for. */
  lemma LongEnough(mem: seq<u32>, len: nat, other: nat)
    requires len <= |mem|
    ensures |mem| < Max(len, other) <==> |mem| < other
    ensures ZerosBehind(mem, len, Max(len, other)) <==> ZerosBehind(mem, len, other)
  {}

  lemma Single(x: int)
    ensures V32([x]) == x
  {
    assert [x][1..] == [] && V32([]) == 0;
    assert V32([x]) == x + 0x1_0000_0000 * V32([]);
  }

  /** 5 plus -1, with -1 written in two digits: one digit too many is read of the 5, which
      is past its end or, with another digit there, wrong. */
  lemma AddReadsOn()
    ensures var minusOne := Operand([1, 0], 2, Negative);
            && ReadsPast(Operand([5], 1, Positive), minusOne)
            && !ReadsPast(Operand([5, 7], 1, Positive), minusOne)
            && !ReadsWell(Operand([5, 7], 1, Positive), minusOne)
  {
    assert [5, 7][..1] == [5] == [5][..1] && [1, 0][..2] == [1, 0] && [1, 0][1..] == [0];
    Single(5);
    Single(0);
    assert V32([1, 0]) == 1 + 0x1_0000_0000 * V32([0]);
    assert [5, 7][1] == 7;
  }

  function Negated(x: Operand): Operand { x.(sign := Flip(x.sign)) }

  /** intn_sub: addition of the negated operand. */
  method Sub(m: Operand, n: Operand, out: array<u32>) returns (r: Sum)
    requires m.Valid() && n.Valid() && m.len < out.Length && n.len < out.Length
    modifies out
    ensures r.PastEnd? <==> ReadsPast(m, Negated(n))
    ensures r.Sum? ==> 1 <= r.len <= out.Length
    ensures r.Sum? ==> (Signed(r.sign, out[..r.len]) == Worth(m) - Worth(n) <==> ReadsWell(m, Negated(n)))
  {
    hide Val, ZerosBehind;
    r := Add(m, Negated(n), out);
  }

  // ---- division ----

  /** The 16-bit view of 32-bit digits on a little-endian machine. */
  function Halves(s: seq<u32>): (h: seq<u16>)
    ensures |h| == 2 * |s|
  {
    if |s| == 0 then [] else [s[0] % 65536, s[0] / 65536] + Halves(s[1..])
  }

  /** Reading 16-bit digits two at a time. */
  function Pairs(h: seq<u16>): (s: seq<u32>)
    requires |h| % 2 == 0
    ensures |s| == |h| / 2
  {
    if |h| == 0 then [] else var lo: int, hi: int := h[0], h[1]; [lo + 65536 * hi] + Pairs(h[2..])
  }

  lemma {:induction false} HalvesValue(s: seq<u32>)
    ensures V16(Halves(s)) == V32(s)
  {
    if |s| > 0 {
      HalvesValue(s[1..]);
      assert V32(s) == s[0] + 0x1_0000_0000 * V32(s[1..]);
      hide Val;
      TwoHalves(s[0] % 65536, s[0] / 65536, Halves(s[1..]));
    }
  }

  lemma {:induction false} PairsValue(h: seq<u16>)
    requires |h| % 2 == 0
    ensures V32(Pairs(h)) == V16(h)
  {
    if |h| > 0 {
      PairsValue(h[2..]);
      assert h == [h[0], h[1]] + h[2..];
      assert Pairs(h)[1..] == Pairs(h[2..]);
      assert V32(Pairs(h)) == Pairs(h)[0] + 0x1_0000_0000 * V32(Pairs(h[2..]));
      hide Val;
      TwoHalves(h[0], h[1], h[2..]);
    }
  }

  lemma TwoHalves(lo: int, hi: int, rest: seq<int>)
    ensures V16([lo, hi] + rest) == lo + 65536 * hi + 0x1_0000_0000 * V16(rest)
  {
    assert ([hi] + rest)[1..] == rest;
    assert V16([hi] + rest) == hi + 65536 * V16(rest);
    assert ([lo, hi] + rest)[1..] == [hi] + rest;
    assert V16([lo, hi] + rest) == lo + 65536 * V16([hi] + rest);
  }

  /** pad_uint16_to_digits: completes the last 32-bit digit. */
  method PadToDigits(n: array<u16>, len: nat) returns (padded: nat)
    requires len % 2 != 0 ==> len < n.Length
    requires len <= n.Length
    modifies n
    ensures padded == len + len % 2 && padded <= n.Length
    ensures V16(n[..padded]) == old(V16(n[..len]))
  {
    hide Val, Pow;
    padded := len;
    if len % 2 != 0 {
      n[len] := 0;
      padded := len + 1;
      assert n[..len + 1] == old(n[..len]) + [0];
      ValSnoc(old(n[..len]), 0, 65536);
    }
  }

  /** The first digits of a 16-bit buffer, read as 32-bit digits, have this value. */
  ghost predicate Reads(a: seq<u16>, digits: nat, value: int) {
    2 * digits <= |a| && V32(Pairs(a[..2 * digits])) == value
  }

  datatype DivOutcome = Aborted | Lengths(qLen: nat, rLen: nat)

  /** intn_divu through the 16-bit views q and r of the output buffers: trims the
      operands, divides, trims and pads the results. The code aborts on a divisor of
      zero and on a dividend with fewer significant half digits than the divisor. */
  method DivU(m: seq<u32>, n: seq<u32>, q: array<u16>, r: array?<u16>) returns (res: DivOutcome)
    requires q != r && |m| <= MAX_LEN16 / 2
    requires Significant(Halves(m)) - Significant(Halves(n)) + 2 <= q.Length
    requires r != null ==> Significant(Halves(n)) + 1 <= r.Length
    modifies q, r
    ensures res.Aborted? <==> V32(n) == 0 || Significant(Halves(m)) < Significant(Halves(n))
    ensures res.Lengths? ==> V32(n) > 0 && Reads(q[..], res.qLen, V32(m) / V32(n))
    ensures res.Lengths? && r != null ==> Reads(r[..], res.rLen, V32(m) % V32(n))
  {
    hide Val, V16, V32, Pairs, Halves;
    var u, v := Halves(m), Halves(n);
    var uLen := CountDigits(u, |u|);
    var vLen := CountDigits(v, |v|);
    assert u[..|u|] == u && v[..|v|] == v;
    HalvesTrimmed(m);
    HalvesTrimmed(n);
    var err := DivMnu16(q, r, u, v, uLen, vLen);
    if err != 0 {
      return Aborted;
    }
    ghost var quotient, remainder := V32(m) / V32(n), V32(m) % V32(n);
    res := FinishBoth(q, r, uLen - vLen + 1, vLen, quotient, remainder);
  }

  /** Trims and pads quotient and remainder. */
  method FinishBoth(q: array<u16>, r: array?<u16>, qLen16: nat, rLen16: nat, ghost quotient: int, ghost remainder: int)
    returns (res: DivOutcome)
    requires q != r && qLen16 < q.Length && (r != null ==> rLen16 < r.Length)
    requires V16(q[..qLen16]) == quotient && (r != null ==> V16(r[..rLen16]) == remainder)
    modifies q, r
    ensures res.Lengths? && Reads(q[..], res.qLen, quotient)
    ensures r != null ==> Reads(r[..], res.rLen, remainder)
  {
    hide Val, V16, V32, Pairs;
    ghost var rest := if r == null then [] else r[..];
    var qLen := Finish(q, qLen16);
    var rLen := 0;
    if r != null {
      assert r[..] == rest && r[..rLen16] == rest[..rLen16];
      ghost var done := q[..];
      rLen := Finish(r, rLen16);
      assert q[..] == done;
    }
    res := Lengths(qLen, rLen);
  }

  lemma HalvesTrimmed(m: seq<u32>)
    ensures V16(Halves(m)[..Significant(Halves(m))]) == V32(m)
    ensures V32(m) == 0 <==> Significant(Halves(m)) == 0
  {
    var h := Halves(m);
    HalvesValue(m);
    SignificantValue(h, 65536);
    if Significant(h) > 0 { LongerIsLarger(h, Significant(h) - 1, 65536); }
  }

  /** Trims the first len half digits and pads them to whole digits. */
  method Finish(a: array<u16>, len: nat) returns (digits: nat)
    requires len < a.Length
    modifies a
    ensures Reads(a[..], digits, old(V16(a[..len])))
  {
    ghost var before := a[..len];
    var count := CountDigits(a[..], len);
    assert a[..][..len] == before;
    SignificantValue(before, 65536);
    assert before[..count] == a[..count];
    var padded := PadToDigits(a, count);
    digits := padded / 2;
    PairsValue(a[..2 * digits]);
    assert a[..][..2 * digits] == a[..2 * digits];
  }
}
