/** Updating a map: the new associations are sorted in place and merged with the old ones. */
module MapUpdate {
  import opened Prelude
  import opened Etf

  type Pair = (Term, Term)

  type Order = (Term, Term) -> bool

  /** term_compare with exact equality is a total order. */
  ghost predicate IsOrder(less: Order) {
    && (forall x :: !less(x, x))
    && (forall x, y :: x == y || less(x, y) || less(y, x))
    && (forall x, y, z :: less(x, y) && less(y, z) ==> less(x, z))
  }

  ghost predicate Ascending(less: Order, s: seq<Pair>) {
    forall i, j :: 0 <= i < j < |s| ==> less(s[i].0, s[j].0)
  }

  ghost predicate DistinctKeys(s: seq<Pair>) {
    forall i, j :: 0 <= i < j < |s| ==> s[i].0 != s[j].0
  }

  // ---- sorting ----

  /** Everything from k on is in its place. */
  ghost predicate TopSorted(less: Order, s: seq<Pair>, k: nat) {
    forall i, j :: 0 <= i < j < |s| && k <= j ==> less(s[i].0, s[j].0)
  }

  function Swapped(s: seq<Pair>, i: nat, j: nat): seq<Pair>
    requires i < |s| && j < |s|
  {
    s[i := s[j]][j := s[i]]
  }

  lemma SwapSorts(less: Order, s: seq<Pair>, k: nat, max: nat)
    requires TopSorted(less, s, k) && DistinctKeys(s) && 0 < k <= |s| && max < k
    requires forall i :: 0 <= i < k && i != max ==> less(s[i].0, s[max].0)
    ensures TopSorted(less, Swapped(s, max, k - 1), k - 1) && DistinctKeys(Swapped(s, max, k - 1))
  {}

  lemma SwapPermutes(s: seq<Pair>, i: nat, j: nat)
    requires i < |s| && j < |s|
    ensures multiset(Swapped(s, i, j)) == multiset(s)
  {}

  /** The position of the greatest key among the first k, or no memory to compare. */
  method Greatest(less: Order, plenty: bool, kv: array<Pair>, k: nat) returns (ok: bool, max: nat)
    requires IsOrder(less) && DistinctKeys(kv[..]) && 0 < k <= kv.Length
    ensures plenty ==> ok
    ensures ok ==> max < k && forall i :: 0 <= i < k && i != max ==> less(kv[..][i].0, kv[..][max].0)
  {
    max := 0;
    for i := 1 to k
      invariant max < i && forall x :: 0 <= x < i && x != max ==> less(kv[..][x].0, kv[..][max].0)
    {
      ok := Granted(plenty);
      if !ok { return; }
      assert kv[..][i].0 != kv[..][max].0;
      if less(kv[max].0, kv[i].0) { max := i; }
    }
    ok := true;
  }

  /** sort_kv_pairs: the greatest goes to the end, again and again. */
  method SortPairs(less: Order, plenty: bool, kv: array<Pair>) returns (ok: bool)
    requires IsOrder(less) && DistinctKeys(kv[..])
    modifies kv
    ensures multiset(kv[..]) == multiset(old(kv[..]))
    ensures plenty ==> ok
    ensures ok ==> Ascending(less, kv[..])
  {
    hide IsOrder, DistinctKeys, TopSorted;
    var k := kv.Length;
    assert TopSorted(less, kv[..], k) by { NothingSorted(less, kv[..]); }
    while 1 < k
      invariant 0 <= k <= kv.Length && DistinctKeys(kv[..]) && TopSorted(less, kv[..], k)
      invariant multiset(kv[..]) == multiset(old(kv[..]))
    {
      var max;
      ok, max := Greatest(less, plenty, kv, k);
      if !ok { return; }
      ghost var s := kv[..];
      SwapSorts(less, s, k, max);
      SwapPermutes(s, max, k - 1);
      if max != k - 1 { kv[max], kv[k - 1] := kv[k - 1], kv[max]; }
      assert kv[..] == Swapped(s, max, k - 1);
      k := k - 1;
    }
    ok := true;
    AllSorted(less, kv[..], k);
  }

  lemma NothingSorted(less: Order, s: seq<Pair>)
    ensures TopSorted(less, s, |s|)
  {}

  lemma AllSorted(less: Order, s: seq<Pair>, k: nat)
    requires TopSorted(less, s, k) && k <= 1
    ensures Ascending(less, s)
  {}

  // ---- merging ----

  ghost predicate HasKey(s: seq<Pair>, key: Term) { exists i :: 0 <= i < |s| && s[i].0 == key }

  /** The updates whose keys src does not have. */
  ghost function NewPairs(src: seq<Pair>, kv: seq<Pair>): set<Pair> {
    set x | x in kv && !HasKey(src, x.0)
  }

  lemma NewPairsStep(src: seq<Pair>, kv: seq<Pair>, q: nat)
    requires q < |kv| && DistinctKeys(kv)
    ensures |NewPairs(src, kv[q..])| == |NewPairs(src, kv[q + 1..])| + (if HasKey(src, kv[q].0) then 0 else 1)
  {
    var more, rest := NewPairs(src, kv[q..]), NewPairs(src, kv[q + 1..]);
    assert kv[q..] == [kv[q]] + kv[q + 1..];
    if HasKey(src, kv[q].0) {
      assert more == rest;
    } else {
      assert more == rest + {kv[q]};
      assert kv[q] !in kv[q + 1..];
    }
  }

  lemma NewPairsEnd(src: seq<Pair>, kv: seq<Pair>)
    ensures NewPairs(src, kv[|kv|..]) == {}
  {}

  /** What the first q updates and the first p old associations come to. */
  ghost predicate Merged(out: seq<Pair>, src: seq<Pair>, p: nat, kv: seq<Pair>, q: nat)
    requires p <= |src| && q <= |kv|
  {
    forall x :: x in out <==> x in kv[..q] || (x in src[..p] && !HasKey(kv, x.0))
  }

  /** Everything merged so far is below what is left. */
  ghost predicate Below(less: Order, out: seq<Pair>, rest: seq<Pair>) {
    forall i, j :: 0 <= i < |out| && 0 <= j < |rest| ==> less(out[i].0, rest[j].0)
  }

  /** Sorted keys: one not at or behind p and not among those before is nowhere. */
  lemma NotThere(less: Order, s: seq<Pair>, p: nat, key: Term)
    requires IsOrder(less) && Ascending(less, s) && p <= |s|
    requires p < |s| ==> less(key, s[p].0)
    requires forall i :: 0 <= i < p ==> less(s[i].0, key)
    ensures !HasKey(s, key)
  {
    forall i | 0 <= i < |s| ensures s[i].0 != key {
      if i >= p && i > p { assert less(s[p].0, s[i].0); }
    }
  }

  lemma OneMore(s: seq<Pair>, p: nat, x: Pair)
    requires p < |s|
    ensures x in s[..p + 1] <==> x in s[..p] || x == s[p]
  {
    assert s[..p + 1] == s[..p] + [s[p]];
  }

  /** Where a merge stands: out is what the first p and q associations come to. */
  ghost predicate Standing(less: Order, out: seq<Pair>, src: seq<Pair>, p: nat, kv: seq<Pair>, q: nat) {
    && p <= |src| && q <= |kv| && Ascending(less, out) && Merged(out, src, p, kv, q)
    && Below(less, out, src[p..]) && Below(less, out, kv[q..])
    && (forall i :: 0 <= i < p && q < |kv| ==> less(src[i].0, kv[q].0))
    && (forall i :: 0 <= i < q && p < |src| ==> less(kv[i].0, src[p].0))
  }

  lemma Start(less: Order, src: seq<Pair>, kv: seq<Pair>)
    ensures Standing(less, [], src, 0, kv, 0)
  {}

  lemma AppendAscending(less: Order, out: seq<Pair>, x: Pair)
    requires Ascending(less, out) && forall i :: 0 <= i < |out| ==> less(out[i].0, x.0)
    ensures Ascending(less, out + [x])
  {}

  /** Appending the head of one list, when it is below the rest of both. */
  lemma AppendBelow(less: Order, out: seq<Pair>, x: Pair, rest: seq<Pair>, rest': seq<Pair>)
    requires Below(less, out, rest) && (forall j :: 0 <= j < |rest'| ==> less(x.0, rest'[j].0) && rest'[j] in rest)
    ensures Below(less, out + [x], rest')
  {
    forall i, j | 0 <= i < |out + [x]| && 0 <= j < |rest'| ensures less((out + [x])[i].0, rest'[j].0) {
      if i < |out| {
        var y :| 0 <= y < |rest| && rest[y] == rest'[j];
        assert less(out[i].0, rest[y].0);
      }
    }
  }

  lemma TailAbove(less: Order, s: seq<Pair>, p: nat)
    requires Ascending(less, s) && p < |s|
    ensures var tail := s[p + 1..]; forall j :: 0 <= j < |tail| ==> less(s[p].0, tail[j].0) && tail[j] in s[p..]
  {
    var tail := s[p + 1..];
    forall j | 0 <= j < |tail| ensures less(s[p].0, tail[j].0) && tail[j] in s[p..] {
      assert tail[j] == s[p..][j + 1];
    }
  }

  /** The old association comes next: its key is below the next update's. */
  lemma TakeOld(less: Order, out: seq<Pair>, src: seq<Pair>, p: nat, kv: seq<Pair>, q: nat)
    requires IsOrder(less) && Ascending(less, src) && Ascending(less, kv) && Standing(less, out, src, p, kv, q)
    requires p < |src| && (q < |kv| ==> less(src[p].0, kv[q].0))
    ensures Standing(less, out + [src[p]], src, p + 1, kv, q)
  {
    var x := src[p];
    assert x == src[p..][0];
    AppendAscending(less, out, x);
    forall j | 0 <= j < |kv[q..]| ensures less(x.0, kv[q..][j].0) {
      if j > 0 { assert less(kv[q].0, kv[q + j].0); }
    }
    AppendBelow(less, out, x, kv[q..], kv[q..]);
    TailAbove(less, src, p);
    AppendBelow(less, out, x, src[p..], src[p + 1..]);
    NotThere(less, kv, q, x.0);
    forall y ensures y in out + [x] <==> y in kv[..q] || (y in src[..p + 1] && !HasKey(kv, y.0)) {
      OneMore(src, p, y);
    }
    if p + 1 < |src| { assert less(src[p].0, src[p + 1].0); }
  }

  /** The update comes next: its key is new. */
  lemma TakeNew(less: Order, out: seq<Pair>, src: seq<Pair>, p: nat, kv: seq<Pair>, q: nat)
    requires IsOrder(less) && Ascending(less, src) && Ascending(less, kv) && Standing(less, out, src, p, kv, q)
    requires q < |kv| && (p < |src| ==> less(kv[q].0, src[p].0))
    ensures Standing(less, out + [kv[q]], src, p, kv, q + 1) && !HasKey(src, kv[q].0)
  {
    var x := kv[q];
    assert x == kv[q..][0];
    AppendAscending(less, out, x);
    forall j | 0 <= j < |src[p..]| ensures less(x.0, src[p..][j].0) {
      if j > 0 { assert less(src[p].0, src[p + j].0); }
    }
    AppendBelow(less, out, x, src[p..], src[p..]);
    TailAbove(less, kv, q);
    AppendBelow(less, out, x, kv[q..], kv[q + 1..]);
    NotThere(less, src, p, x.0);
    forall y ensures y in out + [x] <==> y in kv[..q + 1] || (y in src[..p] && !HasKey(kv, y.0)) {
      OneMore(kv, q, y);
    }
    if q + 1 < |kv| { assert less(kv[q].0, kv[q + 1].0); }
  }

  /** The update replaces the old association. */
  lemma TakeBoth(less: Order, out: seq<Pair>, src: seq<Pair>, p: nat, kv: seq<Pair>, q: nat)
    requires IsOrder(less) && Ascending(less, src) && Ascending(less, kv) && Standing(less, out, src, p, kv, q)
    requires p < |src| && q < |kv| && src[p].0 == kv[q].0
    ensures Standing(less, out + [kv[q]], src, p + 1, kv, q + 1) && HasKey(src, kv[q].0)
  {
    var x := kv[q];
    assert x == kv[q..][0];
    AppendAscending(less, out, x);
    TailAbove(less, kv, q);
    AppendBelow(less, out, x, kv[q..], kv[q + 1..]);
    TailAbove(less, src, p);
    AppendBelow(less, out, x, src[p..], src[p + 1..]);
    assert HasKey(kv, src[p].0);
    forall y ensures y in out + [x] <==> y in kv[..q + 1] || (y in src[..p + 1] && !HasKey(kv, y.0)) {
      OneMore(kv, q, y);
      OneMore(src, p, y);
    }
  }

  /** The two sorted lists stitched together. */
  method Merge(less: Order, plenty: bool, src: seq<Pair>, kv: seq<Pair>, size: nat) returns (ok: bool, out: seq<Pair>)
    requires IsOrder(less) && Ascending(less, src) && Ascending(less, kv) && DistinctKeys(kv)
    requires size == |src| + |NewPairs(src, kv)|
    ensures plenty ==> ok
    ensures ok ==> |out| == size && Ascending(less, out) && Merged(out, src, |src|, kv, |kv|)
  {
    hide IsOrder, Ascending, DistinctKeys, Standing, NewPairs, HasKey;
    out := [];
    ok := true;
    var p, q := 0, 0;
    Start(less, src, kv);
    NewPairsEnd(src, kv);
    assert kv[0..] == kv;
    for j := 0 to size
      invariant 0 <= p <= |src| && 0 <= q <= |kv| && |out| == j && Standing(less, out, src, p, kv, q) && ok
      invariant size - j == |src| - p + |NewPairs(src, kv[q..])|
    {
      if q < |kv| { NewPairsStep(src, kv, q); }
      if p >= |src| {
        TakeNew(less, out, src, p, kv, q);
        out, q := out + [kv[q]], q + 1;
      } else if q >= |kv| {
        TakeOld(less, out, src, p, kv, q);
        out, p := out + [src[p]], p + 1;
      } else {
        ok := Granted(plenty);
        if !ok { return false, []; }
        Trichotomy(less, src[p].0, kv[q].0);
        if less(src[p].0, kv[q].0) {
          TakeOld(less, out, src, p, kv, q);
          out, p := out + [src[p]], p + 1;
        } else if less(kv[q].0, src[p].0) {
          TakeNew(less, out, src, p, kv, q);
          out, q := out + [kv[q]], q + 1;
        } else {
          TakeBoth(less, out, src, p, kv, q);
          out, p, q := out + [(src[p].0, kv[q].1)], p + 1, q + 1;
        }
      }
    }
    AllTaken(less, out, src, p, kv, q);
  }

  lemma Trichotomy(less: Order, x: Term, y: Term)
    requires IsOrder(less)
    ensures x == y || less(x, y) || less(y, x)
  {}

  /** When no iteration is left, nothing is. */
  lemma AllTaken(less: Order, out: seq<Pair>, src: seq<Pair>, p: nat, kv: seq<Pair>, q: nat)
    requires IsOrder(less) && Ascending(less, src) && Ascending(less, kv) && DistinctKeys(kv)
    requires Standing(less, out, src, p, kv, q) && p == |src| && |NewPairs(src, kv[q..])| == 0
    ensures q == |kv| && Ascending(less, out) && Merged(out, src, |src|, kv, |kv|)
  {
    if q < |kv| {
      TakeNew(less, out, src, p, kv, q);
      NewPairsStep(src, kv, q);
    }
  }

  /** jit_put_map_assoc: given how many keys are new, the result is sorted and holds the
      updates, and the old associations whose keys were not updated, and nothing else. */
  method PutMapAssoc(less: Order, plenty: bool, src: seq<Pair>, newEntries: nat, kv: array<Pair>)
    returns (ok: bool, out: seq<Pair>)
    requires IsOrder(less) && Ascending(less, src) && DistinctKeys(kv[..]) && newEntries == |NewPairs(src, kv[..])|
    modifies kv
    ensures multiset(kv[..]) == multiset(old(kv[..]))
    ensures plenty ==> ok
    ensures ok ==> |out| == |src| + newEntries && Ascending(less, out)
    ensures ok ==> forall x :: x in out <==> x in old(kv[..]) || (x in src && !HasKey(old(kv[..]), x.0))
  {
    hide IsOrder, Ascending, DistinctKeys, NewPairs, HasKey;
    out := [];
    ghost var was := kv[..];
    ok := SortPairs(less, plenty, kv);
    if !ok { return; }
    SameUpdates(less, src, was, kv[..]);
    ok, out := Merge(less, plenty, src, kv[..], |src| + newEntries);
    assert src[..|src|] == src && kv[..][..kv.Length] == kv[..];
  }

  lemma SameUpdates(less: Order, src: seq<Pair>, was: seq<Pair>, kv: seq<Pair>)
    requires IsOrder(less) && multiset(kv) == multiset(was) && Ascending(less, kv)
    ensures DistinctKeys(kv) && NewPairs(src, kv) == NewPairs(src, was)
    ensures forall x :: x in kv <==> x in was
    ensures forall key :: HasKey(kv, key) <==> HasKey(was, key)
  {
    forall x: Pair ensures x in kv <==> x in was { assert x in multiset(kv) <==> x in multiset(was); }
    forall key ensures HasKey(kv, key) <==> HasKey(was, key) {
      KeyByMember(kv, key);
      KeyByMember(was, key);
    }
  }

  lemma KeyByMember(s: seq<Pair>, key: Term)
    ensures HasKey(s, key) <==> exists x :: x in s && x.0 == key
  {
    if HasKey(s, key) {
      var i :| 0 <= i < |s| && s[i].0 == key;
      assert s[i] in s;
    }
  }
}
