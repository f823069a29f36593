/** The atom table: names by index through groups of nodes, indices by name through hash
    buckets, grown and rehashed as names come. */
module Atoms {
  import opened Prelude

  type Name = seq<u8>

  /** What a node keeps of a name: the length is a field of ten bits. */
  type Text = s: seq<u8> | |s| < 1024

  function Kept(name: Name): (t: Text)
    ensures t <= name && (t == name <==> |name| < 1024)
  {
    name[..|name| % 1024]
  }

  /** The index is a field of twenty bits, which Field gives. */
  datatype Node = Node(index: nat, key: Text)

  function Field(index: nat): nat { index % 0x10_0000 }

  /** A block of nodes: the first index, how many it has room for as its 16-bit field has it,
      and those in use. */
  datatype Group = Group(first: nat, len: nat, names: seq<Text>)

  datatype Result = Ok | NotFound | AllocFail

  // ---- groups ----

  /** All names in the order of their indices. */
  function NamesOf(groups: seq<Group>): seq<Text> {
    if |groups| == 0 then [] else NamesOf(groups[..|groups| - 1]) + groups[|groups| - 1].names
  }

  /** Room that a group was made with: only the last has some left. */
  function Made(groups: seq<Group>, avail: nat, g: nat): nat
    requires g < |groups|
  {
    |groups[g].names| + if g == |groups| - 1 then avail else 0
  }

  /** Groups follow each other without a gap; their length is kept in 16 bits. */
  ghost predicate GroupsOk(groups: seq<Group>, avail: nat) {
    forall g :: 0 <= g < |groups| ==>
      groups[g].first == |NamesOf(groups[..g])| && groups[g].len == Made(groups, avail, g) % 65536
  }

  /** No group was made with more room than its length field can hold. */
  ghost predicate Whole(groups: seq<Group>, avail: nat) {
    forall g :: 0 <= g < |groups| ==> Made(groups, avail, g) < 65536
  }

  lemma {:induction false} PrefixNames(groups: seq<Group>, g: nat)
    requires g <= |groups|
    ensures var p := NamesOf(groups[..g]); |p| <= |NamesOf(groups)| && p == NamesOf(groups)[..|p|]
  {
    if g < |groups| {
      var front := groups[..|groups| - 1];
      PrefixNames(front, g);
      assert front[..g] == groups[..g];
    } else {
      assert groups[..g] == groups;
    }
  }

  /** A group holds the names from its first index on, and the next group comes behind them. */
  lemma GroupNames(groups: seq<Group>, avail: nat, g: nat)
    requires g < |groups| && GroupsOk(groups, avail)
    ensures var first, end := groups[g].first, groups[g].first + |groups[g].names|;
            && end <= |NamesOf(groups)| && NamesOf(groups)[first..end] == groups[g].names
            && end == if g == |groups| - 1 then |NamesOf(groups)| else groups[g + 1].first
  {
    PrefixNames(groups, g);
    PrefixNames(groups, g + 1);
    assert groups[..g + 1][..g] == groups[..g] && groups[..|groups|] == groups;
    var p := NamesOf(groups[..g]);
    assert NamesOf(groups[..g + 1]) == p + groups[g].names;
    assert NamesOf(groups)[..|p| + |groups[g].names|] == p + groups[g].names;
  }

  /** The group that holds an index. */
  ghost predicate Holds(groups: seq<Group>, g: int, index: nat) {
    0 <= g < |groups| && groups[g].first <= index < groups[g].first + |groups[g].names|
  }

  lemma {:induction false} SomeHolds(groups: seq<Group>, avail: nat, index: nat, g: nat) returns (h: nat)
    requires GroupsOk(groups, avail) && g < |groups| && groups[g].first <= index < |NamesOf(groups)|
    ensures Holds(groups, h, index)
    decreases |groups| - g
  {
    GroupNames(groups, avail, g);
    hide GroupsOk;
    if index < groups[g].first + |groups[g].names| { h := g; } else { h := SomeHolds(groups, avail, index, g + 1); }
  }

  lemma FirstIsZero(groups: seq<Group>, avail: nat)
    requires GroupsOk(groups, avail) && |groups| > 0
    ensures groups[0].first == 0
  {
    assert groups[..0] == [];
  }

  // ---- the name of an index ----

  /** What a walk through the groups comes to: a name, the end, or an address before the nodes
      of a group. */
  datatype Look = Found(name: Text) | Nothing | Astray

  /** get_node_using_index from a group on. */
  function Walk(groups: seq<Group>, index: nat): Look {
    if |groups| == 0 then Nothing
    else if groups[0].first + groups[0].len <= index then Walk(groups[1..], index)
    else if index < groups[0].first || index - groups[0].first >= |groups[0].names| then Astray
    else Found(groups[0].names[index - groups[0].first])
  }

  /** The group that holds an index is reached, and read if its length field covers the index. */
  lemma {:induction false} WalkFinds(groups: seq<Group>, avail: nat, index: nat, g: nat, h: nat)
    requires GroupsOk(groups, avail) && Holds(groups, h, index) && g <= h && index < |NamesOf(groups)|
    ensures Walk(groups[g..], index) ==
            if index < groups[h].first + groups[h].len then Found(NamesOf(groups)[index])
            else if h == |groups| - 1 then Nothing else Astray
    decreases h - g
  {
    hide NamesOf;
    assert groups[g..][1..] == groups[g + 1..];
    GroupNames(groups, avail, g);
    GroupNames(groups, avail, h);
    if g < h {
      FirstsGrow(groups, avail, g, h);
      WalkFinds(groups, avail, index, g + 1, h);
    } else {
      SliceAt(NamesOf(groups), groups[h].first, groups[h].names, index);
      if h < |groups| - 1 {
        assert groups[h + 1..][0] == groups[h + 1];
      } else {
        assert groups[h + 1..] == [];
      }
    }
  }

  lemma SliceAt(n: seq<Text>, first: nat, part: seq<Text>, index: nat)
    requires first <= index < first + |part| <= |n| && n[first..first + |part|] == part
    ensures n[index] == part[index - first]
  {}

  /** A group before another ends before it begins. */
  lemma {:induction false} FirstsGrow(groups: seq<Group>, avail: nat, g: nat, h: nat)
    requires GroupsOk(groups, avail) && g < h < |groups|
    ensures groups[g].first + groups[g].len <= groups[g].first + |groups[g].names| <= groups[h].first
    decreases h
  {
    GroupNames(groups, avail, h - 1);
    if g < h - 1 { FirstsGrow(groups, avail, g, h - 1); }
  }

  /** No group uses more of its nodes than its length field says. */
  ghost predicate LengthsCover(groups: seq<Group>) {
    forall g :: 0 <= g < |groups| ==> |groups[g].names| <= groups[g].len
  }

  /** Every index of the table is read as its name. */
  ghost predicate Readable(groups: seq<Group>) {
    forall i: nat :: i < |NamesOf(groups)| ==> Walk(groups, i) == Found(NamesOf(groups)[i])
  }

  /** That is so exactly if the length fields cover what is used, in particular if no group was
      made too long. */
  lemma AllReadable(groups: seq<Group>, avail: nat)
    requires GroupsOk(groups, avail) && |groups| > 0
    ensures Readable(groups) <==> LengthsCover(groups)
    ensures Whole(groups, avail) ==> LengthsCover(groups)
  {
    if LengthsCover(groups) { CoveredReadable(groups, avail); } else { UncoveredUnreadable(groups, avail); }
  }

  lemma CoveredReadable(groups: seq<Group>, avail: nat)
    requires GroupsOk(groups, avail) && |groups| > 0 && LengthsCover(groups)
    ensures Readable(groups)
  {
    hide NamesOf, Walk, GroupsOk;
    assert groups[0..] == groups;
    FirstIsZero(groups, avail);
    forall i: nat | i < |NamesOf(groups)| ensures Walk(groups, i) == Found(NamesOf(groups)[i]) {
      var h := SomeHolds(groups, avail, i, 0);
      WalkFinds(groups, avail, i, 0, h);
    }
  }

  lemma UncoveredUnreadable(groups: seq<Group>, avail: nat)
    requires GroupsOk(groups, avail) && !LengthsCover(groups)
    ensures !Readable(groups)
  {
    hide NamesOf, Walk;
    assert groups[0..] == groups;
    var g :| 0 <= g < |groups| && |groups[g].names| > groups[g].len;
    GroupNames(groups, avail, g);
    var index := groups[g].first + groups[g].len;
    hide GroupsOk;
    WalkFinds(groups, avail, index, 0, g);
  }

  // ---- buckets ----

  type Hash = Name -> nat

  /** A node says what the name table says. */
  ghost predicate NodeOk(n: Node, names: seq<Text>) {
    n.index < |names| && names[n.index] == n.key
  }

  ghost predicate NodesOk(names: seq<Text>, buckets: seq<seq<Node>>) {
    |buckets| > 0 &&
    forall b, i :: 0 <= b < |buckets| && 0 <= i < |buckets[b]| ==> NodeOk(buckets[b][i], names)
  }

  /** The node of an index is in the bucket where its text is looked for. */
  ghost predicate Listed(names: seq<Text>, buckets: seq<seq<Node>>, hash: Hash, i: nat)
    requires |buckets| > 0
  {
    i < |names| && Node(i, names[i]) in buckets[hash(names[i]) % |buckets|]
  }

  /** Every name has its node. */
  ghost predicate AllListed(names: seq<Text>, buckets: seq<seq<Node>>, hash: Hash)
    requires |buckets| > 0
  {
    forall i: nat :: i < |names| ==> Listed(names, buckets, hash, i)
  }

  /** Names with a node. */
  ghost function KnownIn(names: seq<Text>, buckets: seq<seq<Node>>, hash: Hash): set<Text>
    requires |buckets| > 0
  {
    set i: nat | i < |names| && Listed(names, buckets, hash, i) :: names[i]
  }

  function Members(names: seq<Text>): set<Text> { set x | x in names }

  lemma AllKnown(names: seq<Text>, buckets: seq<seq<Node>>, hash: Hash)
    requires |buckets| > 0 && AllListed(names, buckets, hash)
    ensures KnownIn(names, buckets, hash) == Members(names)
  {
    hide Listed;
    forall x | x in names ensures x in KnownIn(names, buckets, hash) {
      var i: nat :| i < |names| && names[i] == x;
      assert Listed(names, buckets, hash, i);
    }
  }

  /** insert_node_into_bucket */
  function WithNode(buckets: seq<seq<Node>>, b: nat, n: Node): seq<seq<Node>>
    requires b < |buckets|
  {
    buckets[b := [n] + buckets[b]]
  }

  /** The node of an index put into a bucket: it is found there if that is the one of its text. */
  lemma NodePut(names: seq<Text>, buckets: seq<seq<Node>>, hash: Hash, i: nat, b: nat)
    requires NodesOk(names, buckets) && i < |names| && b < |buckets|
    ensures var after := WithNode(buckets, b, Node(i, names[i]));
            && NodesOk(names, after)
            && forall j: nat :: Listed(names, after, hash, j) <==>
                 Listed(names, buckets, hash, j) || (j == i && b == hash(names[i]) % |buckets|)
  {
    var after := WithNode(buckets, b, Node(i, names[i]));
    forall x, y | 0 <= x < |after| && 0 <= y < |after[x]| ensures NodeOk(after[x][y], names) {
      if x != b {
        assert NodeOk(buckets[x][y], names);
      } else if y > 0 {
        assert NodeOk(buckets[x][y - 1], names);
      }
    }
  }

  /** A name more leaves the nodes there as they were. */
  lemma NameMore(names: seq<Text>, buckets: seq<seq<Node>>, hash: Hash, name: Text)
    requires NodesOk(names, buckets)
    ensures NodesOk(names + [name], buckets)
    ensures forall j: nat :: Listed(names + [name], buckets, hash, j) <==> Listed(names, buckets, hash, j)
  {
    var more := names + [name];
    forall x, y | 0 <= x < |buckets| && 0 <= y < |buckets[x]| ensures NodeOk(buckets[x][y], more) {
      assert NodeOk(buckets[x][y], names);
    }
    var b := hash(name) % |buckets|;
    forall y | 0 <= y < |buckets[b]| ensures buckets[b][y] != Node(|names|, name) {
      assert NodeOk(buckets[b][y], names);
    }
    assert Node(|names|, name) !in buckets[b];
  }

  /** The node of the next index, in the bucket of its name: buckets stay truthful, and
      complete if they were, exactly if that is also the bucket of what is kept of the name. */
  lemma NodeAdded(names: seq<Text>, buckets: seq<seq<Node>>, hash: Hash, name: Name)
    requires NodesOk(names, buckets)
    ensures var b := hash(name) % |buckets|;
            var more, after := names + [Kept(name)], WithNode(buckets, b, Node(|names|, Kept(name)));
            && NodesOk(more, after)
            && (AllListed(more, after, hash) <==>
                  AllListed(names, buckets, hash) && b == hash(Kept(name)) % |buckets|)
  {
    hide NodesOk, Listed;
    BucketCount(names, buckets);
    var more, b := names + [Kept(name)], hash(name) % |buckets|;
    NameMore(names, buckets, hash, Kept(name));
    NodePut(more, buckets, hash, |names|, b);
    NoneBeyond(names, buckets, hash);
    var after := WithNode(buckets, b, Node(|names|, Kept(name)));
    if AllListed(more, after, hash) {
      assert Listed(more, after, hash, |names|);
      forall j: nat | j < |names| ensures Listed(names, buckets, hash, j) { assert Listed(more, after, hash, j); }
    }
    if AllListed(names, buckets, hash) && b == hash(Kept(name)) % |buckets| {
      forall j: nat | j < |more| ensures Listed(more, after, hash, j) {
        if j < |names| { assert Listed(names, buckets, hash, j); }
      }
    }
  }

  lemma NoneBeyond(names: seq<Text>, buckets: seq<seq<Node>>, hash: Hash)
    requires |buckets| > 0
    ensures forall j: nat :: Listed(names, buckets, hash, j) ==> j < |names|
  {}

  lemma BucketCount(names: seq<Text>, buckets: seq<seq<Node>>)
    requires NodesOk(names, buckets)
    ensures |buckets| > 0
  {}

  lemma EmptyBuckets(names: seq<Text>, buckets: seq<seq<Node>>, hash: Hash)
    requires |buckets| > 0 && forall b :: 0 <= b < |buckets| ==> buckets[b] == []
    ensures NodesOk(names, buckets)
    ensures forall i: nat :: !Listed(names, buckets, hash, i)
  {}

  // ---- rehashing ----

  /** Nodes of a group that a rehash goes through: its length field, less what it takes for
      unused. */
  function Counted(groups: seq<Group>, avail: nat, g: nat): int
    requires g < |groups|
  {
    if g == |groups| - 1 then groups[g].len - avail else groups[g].len
  }

  /** An index that a rehash puts back into the buckets. */
  ghost predicate PutBack(groups: seq<Group>, avail: nat, g: int, i: nat) {
    0 <= g < |groups| && groups[g].first <= i < groups[g].first + Counted(groups, avail, g)
  }

  /** The same, among the first groups. */
  ghost predicate Reached(groups: seq<Group>, avail: nat, g: nat, i: nat) {
    exists h :: h < g && PutBack(groups, avail, h, i)
  }

  ghost predicate Survives(groups: seq<Group>, avail: nat, i: nat) { Reached(groups, avail, |groups|, i) }

  lemma ReachedStep(groups: seq<Group>, avail: nat, g: nat, i: nat)
    requires g < |groups|
    ensures Reached(groups, avail, g + 1, i) <==> Reached(groups, avail, g, i) || PutBack(groups, avail, g, i)
  {
    if Reached(groups, avail, g + 1, i) {
      var h :| h < g + 1 && PutBack(groups, avail, h, i);
      if h < g { assert Reached(groups, avail, g, i); }
    }
    if PutBack(groups, avail, g, i) { assert g < g + 1; }
  }

  lemma CountedUsed(groups: seq<Group>, avail: nat, g: nat)
    requires GroupsOk(groups, avail) && g < |groups|
    ensures Counted(groups, avail, g) <= |groups[g].names|
    ensures Made(groups, avail, g) < 65536 ==> Counted(groups, avail, g) == |groups[g].names|
  {}

  /** With no group too long, all indices survive. */
  lemma AllSurvive(groups: seq<Group>, avail: nat)
    requires GroupsOk(groups, avail) && |groups| > 0 && Whole(groups, avail)
    ensures forall i: nat :: i < |NamesOf(groups)| ==> Survives(groups, avail, i)
  {
    hide NamesOf;
    FirstIsZero(groups, avail);
    forall i: nat | i < |NamesOf(groups)| ensures Survives(groups, avail, i) {
      var h := SomeHolds(groups, avail, i, 0);
      CountedUsed(groups, avail, h);
      assert h < |groups| && PutBack(groups, avail, h, i);
    }
  }

  /** Buckets hold what the first g groups and k nodes of the next give. */
  ghost predicate Rehashed(groups: seq<Group>, avail: nat, g: nat, k: nat, buckets: seq<seq<Node>>, hash: Hash) {
    && NodesOk(NamesOf(groups), buckets) && (k > 0 ==> g < |groups|)
    && forall i: nat ::
         Listed(NamesOf(groups), buckets, hash, i) <==>
           Reached(groups, avail, g, i) || (g < |groups| && groups[g].first <= i < groups[g].first + k)
  }

  lemma NothingRehashed(groups: seq<Group>, avail: nat, buckets: seq<seq<Node>>, hash: Hash)
    requires |buckets| > 0 && forall b :: 0 <= b < |buckets| ==> buckets[b] == []
    ensures Rehashed(groups, avail, 0, 0, buckets, hash)
  {
    EmptyBuckets(NamesOf(groups), buckets, hash);
  }

  lemma NodeRehashed(groups: seq<Group>, avail: nat, g: nat, k: nat, buckets: seq<seq<Node>>, hash: Hash)
    requires GroupsOk(groups, avail) && g < |groups| && k < |groups[g].names|
    requires Rehashed(groups, avail, g, k, buckets, hash)
    ensures |buckets| > 0
    ensures var name := groups[g].names[k];
            var after := WithNode(buckets, hash(name) % |buckets|, Node(groups[g].first + k, name));
            Rehashed(groups, avail, g, k + 1, after, hash)
  {
    hide NamesOf, NodesOk, Listed, Reached;
    GroupNames(groups, avail, g);
    BucketCount(NamesOf(groups), buckets);
    SliceAt(NamesOf(groups), groups[g].first, groups[g].names, groups[g].first + k);
    NodePut(NamesOf(groups), buckets, hash, groups[g].first + k, hash(groups[g].names[k]) % |buckets|);
  }

  lemma GroupRehashed(groups: seq<Group>, avail: nat, g: nat, k: nat, buckets: seq<seq<Node>>, hash: Hash)
    requires g < |groups| && Rehashed(groups, avail, g, k, buckets, hash)
    requires k == if Counted(groups, avail, g) < 0 then 0 else Counted(groups, avail, g)
    ensures Rehashed(groups, avail, g + 1, 0, buckets, hash)
  {
    hide NamesOf, NodesOk, Listed, Reached;
    BucketCount(NamesOf(groups), buckets);
    forall i: nat
      ensures Listed(NamesOf(groups), buckets, hash, i) <==> Reached(groups, avail, g + 1, i)
    {
      ReachedStep(groups, avail, g, i);
    }
  }

  lemma RehashedAll(groups: seq<Group>, avail: nat, buckets: seq<seq<Node>>, hash: Hash)
    requires Rehashed(groups, avail, |groups|, 0, buckets, hash)
    ensures NodesOk(NamesOf(groups), buckets) && |buckets| > 0
    ensures forall i: nat :: Listed(NamesOf(groups), buckets, hash, i) <==> Survives(groups, avail, i)
  {
    hide NamesOf, Listed, Reached;
  }

  /** One group of a rehash. */
  method RehashGroup(groups: seq<Group>, avail: nat, g: nat, old_: seq<seq<Node>>, hash: Hash)
    returns (new_: seq<seq<Node>>)
    requires GroupsOk(groups, avail) && g < |groups| && Rehashed(groups, avail, g, 0, old_, hash)
    ensures |new_| == |old_| && Rehashed(groups, avail, g + 1, 0, new_, hash)
  {
    CountedUsed(groups, avail, g);
    hide GroupsOk, Rehashed;
    var group := groups[g];
    var n := if g == |groups| - 1 then group.len - avail else group.len;
    new_ := old_;
    var i := 0;
    while i < n
      invariant 0 <= i && (i <= n || i == 0) && |new_| == |old_| && Rehashed(groups, avail, g, i, new_, hash)
    {
      NodeRehashed(groups, avail, g, i, new_, hash);
      var name := group.names[i];
      new_ := WithNode(new_, hash(name) % |new_|, Node(group.first + i, name));
      i := i + 1;
    }
    GroupRehashed(groups, avail, g, i, new_, hash);
  }

  /** A batch of 65536 new names behind a full group: none of them is readable, and a rehash
      drops them all. */
  lemma LongGroupLost(eight: seq<Text>, names: seq<Text>, i: nat)
    requires |eight| == 8 && |names| == 65536 && 8 <= i < 65544
    ensures var groups := [Group(0, 8, eight), Group(8, 0, names)];
            && GroupsOk(groups, 0) && |NamesOf(groups)| == 65544
            && Walk(groups, i) == Nothing && !Survives(groups, 0, i)
  {
    var groups := [Group(0, 8, eight), Group(8, 0, names)];
    assert groups[..0] == [] && groups[..1] == [Group(0, 8, eight)] && [Group(0, 8, eight)][..0] == [];
    assert NamesOf(groups[..1]) == eight;
    assert groups[1..] == [Group(8, 0, names)] && groups[1..][1..] == [];
    assert Walk(groups, i) == Walk(groups[1..], i) == Walk([], i);
  }

  // ---- distinct names ----

  ghost predicate Distinct(names: seq<Text>) { forall i, j :: 0 <= i < j < |names| ==> names[i] != names[j] }

  /** The names of a batch that are not known, in order. */
  ghost function Missing(known: set<Name>, batch: seq<Name>): seq<Name> {
    if |batch| == 0 then []
    else Missing(known, batch[..|batch| - 1]) + (if batch[|batch| - 1] in known then [] else [batch[|batch| - 1]])
  }

  /** Missing names come in the order of the batch, each as often as there. */
  lemma {:induction false} MissingJoin(known: set<Name>, a: seq<Name>, b: seq<Name>)
    ensures Missing(known, a + b) == Missing(known, a) + Missing(known, b)
    ensures |a| == 1 ==> Missing(known, a) == if a[0] in known then [] else a
  {
    if |b| > 0 {
      var less := b[..|b| - 1];
      MissingJoin(known, a, less);
      assert (a + b)[..|a + b| - 1] == a + less;
    } else {
      assert a + b == a;
    }
    if |a| == 1 { assert a[..0] == []; }
  }

  lemma MissingStep(known: set<Name>, batch: seq<Name>, i: nat)
    requires i < |batch|
    ensures Missing(known, batch[..i + 1]) ==
            Missing(known, batch[..i]) + (if batch[i] in known then [] else [batch[i]])
    ensures |Missing(known, batch[..i + 1])| <= |Missing(known, batch)|
  {
    assert batch[..i + 1][..i] == batch[..i];
    MissingMore(known, batch, i + 1);
  }

  lemma {:induction false} MissingMore(known: set<Name>, batch: seq<Name>, i: nat)
    requires i <= |batch|
    ensures |Missing(known, batch[..i])| <= |Missing(known, batch)|
  {
    if i < |batch| {
      var front := batch[..|batch| - 1];
      MissingMore(known, front, i);
      assert front[..i] == batch[..i];
    } else {
      assert batch[..i] == batch;
    }
  }

  /** What is kept of names. */
  ghost function KeptAll(names: seq<Name>): (r: seq<Text>)
    ensures |r| == |names| && forall i :: 0 <= i < |r| ==> r[i] == Kept(names[i])
  {
    if |names| == 0 then [] else KeptAll(names[..|names| - 1]) + [Kept(names[|names| - 1])]
  }

  lemma KeptSnoc(names: seq<Name>, last: Name)
    ensures KeptAll(names + [last]) == KeptAll(names) + [Kept(last)]
  {
    assert (names + [last])[..|names|] == names;
  }

  /** What a call adds to the texts of a table that knows some names. */
  ghost function Added(known: set<Name>, batch: seq<Name>): seq<Text> { KeptAll(Missing(known, batch)) }

  /** Of the names that are not known, no two are kept as the same text, and none as a text
      that is there. */
  ghost predicate NoClash(names: seq<Text>, known: set<Name>, batch: seq<Name>) {
    && (forall i :: 0 <= i < |batch| && batch[i] !in known ==> Kept(batch[i]) !in names)
    && (forall i, j :: 0 <= i < j < |batch| && batch[i] !in known && batch[j] !in known ==>
          Kept(batch[i]) != Kept(batch[j]))
  }

  /** No name that is missing occurs twice in the batch. */
  ghost predicate NoNewRepeat(known: set<Name>, batch: seq<Name>) {
    forall i, j :: 0 <= i < j < |batch| && batch[i] == batch[j] ==> batch[i] in known
  }

  /** For names that are kept whole, in a table that knows all of its names, nothing else is
      asked. */
  lemma ShortNames(names: seq<Text>, batch: seq<Name>)
    requires AllShort(batch)
    ensures NoClash(names, Members(names), batch) <==> NoNewRepeat(Members(names), batch)
  {}

  lemma DistinctStep(m: seq<Text>, last: Text)
    ensures Distinct(m + [last]) <==> Distinct(m) && last !in m
  {
    var both: seq<Text> := m + [last];
    assert both[|m|] == last && forall i :: 0 <= i < |m| ==> both[i] == m[i];
    if last in m {
      var i :| 0 <= i < |m| && m[i] == last;
      assert both[i] == both[|m|];
    }
    if Distinct(both) {
      forall i, j | 0 <= i < j < |m| ensures m[i] != m[j] { assert both[i] != both[j]; }
    }
  }

  lemma NoClashStep(names: seq<Text>, known: set<Name>, front: seq<Name>, last: Name)
    ensures NoClash(names, known, front + [last]) <==>
              NoClash(names, known, front) && (last in known || !Taken(names, known, front, Kept(last)))
  {
    var batch: seq<Name> := front + [last];
    assert batch[|front|] == last && forall i :: 0 <= i < |front| ==> batch[i] == front[i];
    if NoClash(names, known, batch) {
      forall i, j | 0 <= i < j < |front| && front[i] !in known && front[j] !in known
        ensures Kept(front[i]) != Kept(front[j])
      {
        assert batch[i] !in known && batch[j] !in known;
      }
      forall i | 0 <= i < |front| && front[i] !in known ensures Kept(front[i]) !in names {
        assert batch[i] !in known;
      }
      if last !in known {
        assert batch[|front|] !in known;
        forall i | 0 <= i < |front| && front[i] !in known ensures Kept(front[i]) != Kept(last) {
          assert batch[i] !in known;
        }
      }
    }
  }

  /** A text is there, or kept of an earlier missing name. */
  ghost predicate Taken(names: seq<Text>, known: set<Name>, front: seq<Name>, t: Text) {
    t in names || exists i :: 0 <= i < |front| && front[i] !in known && Kept(front[i]) == t
  }

  lemma {:induction false} TakenIsIn(names: seq<Text>, known: set<Name>, front: seq<Name>, t: Text)
    ensures t in names + Added(known, front) <==> Taken(names, known, front, t)
  {
    if |front| > 0 {
      var less, last := front[..|front| - 1], front[|front| - 1];
      TakenIsIn(names, known, less, t);
      AddedStep(known, front);
      assert front == less + [last];
      hide Added;
      if Taken(names, known, front, t) && t !in names {
        var i :| 0 <= i < |front| && front[i] !in known && Kept(front[i]) == t;
        if i < |less| { assert less[i] == front[i]; }
      }
      if Taken(names, known, less, t) && t !in names {
        var i :| 0 <= i < |less| && less[i] !in known && Kept(less[i]) == t;
        assert front[i] == less[i];
      }
    }
  }

  lemma AddedStep(known: set<Name>, batch: seq<Name>)
    requires |batch| > 0
    ensures var less, last := batch[..|batch| - 1], batch[|batch| - 1];
            Added(known, batch) == Added(known, less) + (if last in known then [] else [Kept(last)])
  {
    var less, last := batch[..|batch| - 1], batch[|batch| - 1];
    KeptSnoc(Missing(known, less), last);
    assert Missing(known, less) + [] == Missing(known, less);
  }

  /** Texts and indices stay one to one exactly when nothing missing clashes. */
  lemma {:induction false} DistinctAfter(names: seq<Text>, known: set<Name>, batch: seq<Name>)
    requires Distinct(names)
    ensures Distinct(names + Added(known, batch)) <==> NoClash(names, known, batch)
  {
    hide NoClash, Distinct, Added, Taken;
    if |batch| > 0 {
      var less, last := batch[..|batch| - 1], batch[|batch| - 1];
      DistinctAfter(names, known, less);
      AddedStep(known, batch);
      assert batch == less + [last];
      NoClashStep(names, known, less, last);
      TakenIsIn(names, known, less, Kept(last));
      DistinctStep(names + Added(known, less), Kept(last));
      assert names + Added(known, less) + [Kept(last)] == names + (Added(known, less) + [Kept(last)]);
      assert Added(known, less) + [] == Added(known, less);
    } else {
      NoneAdded(known);
      NoneClash(names, known);
      assert names + [] == names;
    }
  }

  lemma NoneClash(names: seq<Text>, known: set<Name>)
    ensures NoClash(names, known, [])
  {}

  /** A new name given twice gets two indices. */
  lemma RepeatedName(name: Name)
    ensures Missing({}, [name, name]) == [name, name]
  {
    assert [name, name][..1] == [name] && [name][..0] == [];
    assert Missing({}, [name]) == [name];
  }

  // ---- runs ----

  /** A call and how far it came: one name that was taken or refused, or so many of a batch. */
  datatype Call = One(name: Name, taken: bool) | Many(batch: seq<Name>, done: nat)

  function Asked(call: Call): seq<Name>
    requires call.Many? ==> call.done <= |call.batch|
  {
    match call
    case One(name, taken) => if taken then [name] else []
    case Many(batch, done) => batch[..done]
  }

  /** The texts of a table, and those that have a node where they are looked for. */
  datatype Stage = Stage(names: seq<Text>, known: set<Text>)

  ghost function After(s: Stage, call: Call): seq<Text>
    requires call.Many? ==> call.done <= |call.batch|
  {
    s.names + Added(s.known, Asked(call))
  }

  /** Calls follow each other; which texts are found may change with each. */
  ghost predicate Calls(stages: seq<Stage>, calls: seq<Call>) {
    && |stages| == |calls| + 1 && stages[0].names == []
    && forall k :: 0 <= k < |calls| ==>
         && (calls[k].Many? ==> calls[k].done <= |calls[k].batch|)
         && stages[k + 1].names == After(stages[k], calls[k])
  }

  ghost predicate Clean(stages: seq<Stage>, calls: seq<Call>, k: nat)
    requires Calls(stages, calls) && k < |calls|
  {
    NoClash(stages[k].names, stages[k].known, Asked(calls[k]))
  }

  /** Over every run, with any refusals and any losses, an index keeps its text, and texts and
      indices are one to one exactly if no call clashed. */
  lemma {:induction false} RunDistinct(stages: seq<Stage>, calls: seq<Call>, i: nat, j: nat)
    requires Calls(stages, calls) && i <= j < |stages|
    ensures stages[i].names <= stages[j].names
    ensures Distinct(stages[j].names) <==> forall k: nat :: k < j ==> Clean(stages, calls, k)
    decreases j
  {
    hide Calls, Clean, Distinct;
    NothingYet(stages, calls);
    if j > 0 {
      RunDistinct(stages, calls, if i < j then i else j - 1, j - 1);
      CallStep(stages, calls, j - 1);
    }
  }

  lemma NothingYet(stages: seq<Stage>, calls: seq<Call>)
    requires Calls(stages, calls)
    ensures |stages| == |calls| + 1 && Distinct(stages[0].names)
  {}

  /** One call: what was there stays, and nothing comes twice exactly if the call is clean. */
  lemma CallStep(stages: seq<Stage>, calls: seq<Call>, k: nat)
    requires Calls(stages, calls) && k < |calls|
    ensures |stages| == |calls| + 1 && stages[k].names <= stages[k + 1].names
    ensures Distinct(stages[k + 1].names) <==> Distinct(stages[k].names) && Clean(stages, calls, k)
  {
    hide NoClash, Distinct, Added;
    var s := stages[k];
    assert stages[k + 1].names == After(s, calls[k]);
    if Distinct(s.names) {
      DistinctAfter(s.names, s.known, Asked(calls[k]));
    } else {
      PrefixDistinct(s.names, stages[k + 1].names);
    }
  }

  /** A run on names that are kept whole, in which the table always knows all of its names and no
      batch repeats a new one, keeps them one to one. */
  lemma RunShort(stages: seq<Stage>, calls: seq<Call>, j: nat)
    requires Calls(stages, calls) && j < |stages|
    requires forall k: nat :: k < j ==> Ordinary(stages[k], Asked(calls[k]))
    ensures Distinct(stages[j].names)
  {
    hide NoClash, Distinct, After, NoNewRepeat;
    forall k: nat | k < j ensures Clean(stages, calls, k) {
      assert Ordinary(stages[k], Asked(calls[k]));
      ShortNames(stages[k].names, Asked(calls[k]));
    }
    RunDistinct(stages, calls, j, j);
  }

  ghost predicate Ordinary(s: Stage, asked: seq<Name>) {
    s.known == Members(s.names) && AllShort(asked) && NoNewRepeat(s.known, asked)
  }

  lemma PrefixDistinct(names: seq<Text>, more: seq<Text>)
    requires names <= more && !Distinct(names)
    ensures !Distinct(more)
  {
    var i, j :| 0 <= i < j < |names| && names[i] == names[j];
    assert more[i] == names[i] && more[j] == names[j];
  }

  /** A name that is not kept whole is never found, and gets an index with each call. */
  lemma LongNameTwice(s: Stage, t: Stage, name: Name)
    requires |name| >= 1024 && t.names == After(s, One(name, true))
    ensures t.names == s.names + [Kept(name)] && After(t, One(name, true)) == t.names + [Kept(name)]
    ensures !Distinct(After(t, One(name, true)))
  {
    OneAdded(s.known, name);
    OneAdded(t.known, name);
    LongUnknown(s.known, name);
    LongUnknown(t.known, name);
    var more := t.names + [Kept(name)];
    assert more[|s.names|] == more[|t.names|];
  }

  lemma LongUnknown(known: set<Text>, name: Name)
    requires |name| >= 1024
    ensures name !in known
  {
    assert forall t :: t in known ==> |t| < 1024;
  }

  lemma OneAdded(known: set<Name>, name: Name)
    ensures Added(known, [name]) == if name in known then [] else [Kept(name)]
  {
    assert [name][..0] == [];
    AddedStep(known, [name]);
  }

  /** In a table with different texts, the index field is right exactly for the first 2^20. */
  lemma FieldRight(names: seq<Text>, i: nat)
    requires Distinct(names) && i < |names|
    ensures Field(i) <= i && (names[Field(i)] == names[i] <==> i < 0x10_0000)
  {}

  // ---- the table ----

  class AtomTable {
    const hash: Hash
    /** whether memory never runs out */
    const plenty: bool
    var count: nat
    /** room left in the last group */
    var avail: nat
    var buckets: seq<seq<Node>>
    var groups: seq<Group>

    /** The name of every index. */
    ghost function Names(): seq<Text>
      reads this
    {
      NamesOf(groups)
    }

    /** Texts that are found in the buckets. */
    ghost function Known(): set<Text>
      requires |buckets| > 0
      reads this
    {
      KnownIn(Names(), buckets, hash)
    }

    ghost predicate Valid()
      reads this
    {
      && |groups| > 0 && GroupsOk(groups, avail) && count == |Names()|
      && NodesOk(Names(), buckets)
    }

    /** Every text is where it is looked for. */
    ghost predicate InPlace()
      requires |buckets| > 0
      reads this
    {
      AllListed(Names(), buckets, hash)
    }

    /** Every name is found, and every index is read. */
    ghost predicate Complete()
      reads this
    {
      && Valid() && Whole(groups, avail) && InPlace() && Known() == Members(Names())
      && Readable(groups)
    }

    lemma IsComplete()
      requires Valid() && Whole(groups, avail) && InPlace()
      ensures Complete()
    {
      hide NamesOf, GroupsOk, AllListed, KnownIn, Walk;
      AllKnown(Names(), buckets, hash);
      AllReadable(groups, avail);
    }

    /** atom_table_new: the first group is not asked for; without it there are no groups and
        avail is not set. */
    constructor (hash: Hash, plenty: bool)
      ensures this.hash == hash && this.plenty == plenty && (plenty ==> groups != [])
      ensures if groups != [] then Complete() && Names() == [] else !Valid()
    {
      this.hash := hash;
      this.plenty := plenty;
      count := 0;
      avail := *;
      buckets := seq(8, _ => []);
      groups := [];
      new;
      var got := Granted(plenty);
      if got {
        groups := [Group(0, 8, [])];
        avail := 8;
        EmptyBuckets([], buckets, hash);
        assert groups[..0] == [] && NamesOf([]) == [];
        IsComplete();
      }
    }

    /** get_node_from_bucket: the index of a name, if it has a node. */
    method Find(name: Name) returns (found: Option<nat>)
      requires Valid()
      ensures |buckets| > 0 && (found.Some? <==> name in Known())
      ensures found.Some? ==> Answers(Names(), found.value, name)
    {
      var b := hash(name) % |buckets|;
      var chain := buckets[b];
      for i := 0 to |chain|
        invariant forall x :: 0 <= x < i ==> chain[x].key != name
      {
        if chain[i].key == name {
          assert NodeOk(buckets[b][i], Names());
          assert Listed(Names(), buckets, hash, chain[i].index);
          return Some(Field(chain[i].index));
        }
      }
      found := None;
      NotInChain(Names(), buckets, hash, name);
    }

    /** get_node_using_index: the name of an index, through the groups. */
    method NameAt(index: nat) returns (r: Look)
      requires Valid()
      ensures r == if index < |Names()| then Walk(groups, index) else Nothing
      ensures forall g :: Holds(groups, g, index) && index < |Names()| ==>
                r == if index < groups[g].first + groups[g].len then Found(Names()[index])
                     else if g == |groups| - 1 then Nothing else Astray
    {
      hide GroupsOk, NamesOf, NodesOk, AllListed;
      if index >= count { return Nothing; }
      assert groups[0..] == groups;
      forall g | Holds(groups, g, index)
        ensures Walk(groups, index) == if index < groups[g].first + groups[g].len then Found(Names()[index])
                                       else if g == |groups| - 1 then Nothing else Astray
      {
        WalkFinds(groups, avail, index, 0, g);
      }
      var g := 0;
      while g < |groups|
        invariant 0 <= g <= |groups| && Walk(groups[g..], index) == Walk(groups, index)
      {
        var group := groups[g];
        assert groups[g..][0] == group && groups[g..][1..] == groups[g + 1..];
        if group.first + group.len > index {
          if index < group.first || index - group.first >= |group.names| { return Astray; }
          return Found(group.names[index - group.first]);
        }
        g := g + 1;
      }
      r := Nothing;
    }

    /** new_node_group, when the last group is full. */
    method NewGroup(len: nat) returns (ok: bool)
      requires Valid() && avail == 0 && len > 0
      modifies this`groups, this`avail
      ensures Valid() && Names() == old(Names()) && avail == (if ok then len else 0) && (plenty ==> ok)
      ensures Whole(groups, avail) <==> old(Whole(groups, avail)) && (ok ==> len < 65536)
      ensures !ok ==> groups == old(groups)
    {
      hide NodesOk;
      ok := Granted(plenty);
      if !ok { return; }
      GroupAppended(groups, len);
      groups := groups + [Group(count, len % 65536, [])];
      avail := len;
    }

    /** insert_node: the next index goes to the name. */
    method InsertNode(name: Name) returns (index: nat)
      requires Valid() && avail > 0
      modifies this`groups, this`avail, this`count, this`buckets
      ensures Valid() && Names() == old(Names()) + [Kept(name)]
      ensures index == |old(Names())| && avail == old(avail) - 1 && |buckets| == |old(buckets)| > 0
      ensures Whole(groups, avail) <==> old(Whole(groups, avail))
      ensures InPlace() <==> old(InPlace()) && hash(name) % |buckets| == hash(Kept(name)) % |buckets|
    {
      hide NodesOk, AllListed, GroupsOk, Whole, NamesOf;
      index := count;
      NameAppended(groups, avail, Kept(name));
      NodeAdded(Names(), buckets, hash, name);
      BucketCount(Names(), buckets);
      var last := |groups| - 1;
      groups := groups[last := groups[last].(names := groups[last].names + [Kept(name)])];
      count := count + 1;
      avail := avail - 1;
      var b := hash(name) % |buckets|;
      buckets := WithNode(buckets, b, Node(index, Kept(name)));
    }

    /** do_rehash: the nodes that its loop counts, in other buckets, or no memory for them. */
    method DoRehash(capacity: nat) returns (ok: bool)
      requires Valid() && capacity > 0
      modifies this`buckets
      ensures Valid() && (plenty ==> ok) && |buckets| == if ok then capacity else |old(buckets)|
      ensures ok ==> forall i: nat :: Listed(Names(), buckets, hash, i) <==> Survives(groups, avail, i)
      ensures ok && Whole(groups, avail) ==> InPlace()
      ensures !ok ==> buckets == old(buckets)
    {
      hide NodesOk, NamesOf, GroupsOk, AllListed, Listed, Rehashed;
      ok := Granted(plenty);
      if !ok { return; }
      var fresh_: seq<seq<Node>> := seq(capacity, _ => []);
      NothingRehashed(groups, avail, fresh_, hash);
      for g := 0 to |groups|
        invariant |fresh_| == capacity && Rehashed(groups, avail, g, 0, fresh_, hash) && buckets == old(buckets)
      {
        fresh_ := RehashGroup(groups, avail, g, fresh_, hash);
      }
      RehashedAll(groups, avail, fresh_, hash);
      if Whole(groups, avail) { SurvivorsListed(groups, avail, fresh_, hash); }
      buckets := fresh_;
    }

    /** maybe_rehash: past a quarter over the capacity, eight more buckets than names. */
    method MaybeRehash(more: nat) returns (ok: bool)
      requires Valid()
      modifies this`buckets
      ensures Valid() && |buckets| > 0 && (ok && Whole(groups, avail) ==> InPlace())
      ensures |buckets| == if ok then |Names()| + more + 8 else |old(buckets)|
      ensures ok ==> |Names()| + more > |old(buckets)| + |old(buckets)| / 4
      ensures plenty && |Names()| + more > |old(buckets)| + |old(buckets)| / 4 ==> ok
      ensures !ok ==> buckets == old(buckets)
    {
      hide AllListed;
      ok := false;
      if count + more <= |buckets| + |buckets| / 4 { return; }
      ok := DoRehash(count + more + 8);
    }

    /** atom_table_ensure_atom */
    method EnsureAtom(name: Name, existingOnly: bool, copy: bool) returns (r: Result, index: nat)
      requires Valid()
      modifies this`groups, this`avail, this`count, this`buckets
      ensures Valid() && (Whole(groups, avail) <==> old(Whole(groups, avail)))
      ensures r == Ok && name in old(Known()) ==> Answers(Names(), index, name) && Names() == old(Names())
      ensures r == Ok && name !in old(Known()) ==> index == |old(Names())| && Names() == old(Names()) + [Kept(name)]
      ensures r != Ok ==> Names() == old(Names())
      ensures r == NotFound <==> existingOnly && name !in old(Known())
      ensures name in old(Known()) || (plenty && !existingOnly) ==> r == Ok
      ensures old(Complete()) && |name| < 1024 ==> Complete()
      ensures Names() == After(Stage(old(Names()), old(Known())), One(name, r == Ok))
    {
      hide NodesOk, NamesOf, GroupsOk, AllListed, Whole, KnownIn, Walk, Distinct, Added, Answers;
      BucketCount(Names(), buckets);
      OneAdded(Known(), name);
      NoneAdded(Known());
      assert Names() + [] == Names();
      index := 0;
      var found := Find(name);
      if found.Some? { return Ok, found.value; }
      if existingOnly { return NotFound, 0; }
      var ok;
      ok, index := Placed(name, copy);
      if Whole(groups, avail) && InPlace() { IsComplete(); }
      r := if ok then Ok else AllocFail;
    }

    /** The rest of atom_table_ensure_atom, for a name that was not found. */
    method Placed(name: Name, copy: bool) returns (ok: bool, index: nat)
      requires Valid()
      modifies this`groups, this`avail, this`count, this`buckets
      ensures Valid() && (Whole(groups, avail) <==> old(Whole(groups, avail))) && (plenty ==> ok)
      ensures Names() == if ok then old(Names()) + [Kept(name)] else old(Names())
      ensures |buckets| > 0 && (ok ==> index == |old(Names())|)
      ensures old(Complete()) && |name| < 1024 ==> InPlace()
    {
      hide NodesOk, NamesOf, GroupsOk, AllListed, Whole, KnownIn, Readable;
      BucketCount(Names(), buckets);
      ok, index := true, 0;
      if avail == 0 {
        ok := NewGroup(8);
        if !ok { return; }
      }
      if copy && |name| > 0 {
        ok := Granted(plenty);
        if !ok { return; }
      }
      var rehashed := MaybeRehash(1);
      index := InsertNode(name);
    }

    /** First pass of atom_table_ensure_atoms: which names are there already. */
    method FindAll(batch: seq<Name>) returns (table: seq<Option<nat>>, missing: nat)
      requires Valid()
      ensures |buckets| > 0 && missing == |Missing(Known(), batch)| && LookedUp(Names(), Known(), table, batch)
    {
      BucketCount(Names(), buckets);
      hide NodesOk, NamesOf, GroupsOk, AllListed, KnownIn, Answers, LookedUp, Missing;
      table, missing := [], 0;
      NoneAdded(Known());
      NoneLookedUp(Names(), Known());
      assert batch[..0] == [];
      for i := 0 to |batch|
        invariant missing == |Missing(Known(), batch[..i])| && LookedUp(Names(), Known(), table, batch[..i])
      {
        MissingStep(Known(), batch, i);
        var found := Find(batch[i]);
        LookedUpMore(Names(), Known(), table, batch[..i], found, batch[i]);
        assert batch[..i + 1] == batch[..i] + [batch[i]];
        table := table + [found];
        if found.None? { missing := missing + 1; }
      }
      assert batch[..|batch|] == batch;
    }

    /** A missing name of a batch; if the last group is full, one is made for all that remain. */
    method PlaceNext(name: Name, remaining: nat) returns (ok: bool, index: nat)
      requires Valid() && remaining > 0
      modifies this`groups, this`avail, this`count, this`buckets
      ensures Valid() && |buckets| > 0 && (plenty ==> ok)
      ensures Names() == if ok then old(Names()) + [Kept(name)] else old(Names())
      ensures if ok then index == |old(Names())| && avail == (if old(avail) == 0 then remaining else old(avail)) - 1
              else avail == old(avail) == 0
      ensures Whole(groups, avail) <==> old(Whole(groups, avail)) && (ok && old(avail) == 0 ==> remaining < 65536)
      ensures old(|buckets| > 0 && InPlace()) && |name| < 1024 ==> InPlace()
    {
      hide NodesOk, NamesOf, GroupsOk, AllListed, Whole;
      BucketCount(Names(), buckets);
      ok, index := true, 0;
      if avail == 0 {
        ok := NewGroup(remaining);
        if !ok { return; }
      }
      index := InsertNode(name);
    }

    /** atom_table_ensure_atoms on decoded names: the names not known get the next indices in
        the order of the batch. Without memory for a group, those before stay. */
    method EnsureAtoms(batch: seq<Name>) returns (r: Result, table: seq<Option<nat>>)
      requires Valid()
      modifies this`groups, this`avail, this`count, this`buckets
      ensures Valid() && |table| == |batch| && (r == Ok || r == AllocFail) && (plenty ==> r == Ok)
      ensures r == Ok ==> forall i :: 0 <= i < |batch| ==>
                table[i].Some? && Indexed(old(Names()), old(Known()), Names(), table[i].value, batch[i])
      ensures exists k :: 0 <= k <= |batch| && (r == Ok ==> k == |batch|)
                          && Names() == After(Stage(old(Names()), old(Known())), Many(batch, k))
      ensures Whole(groups, avail) <==>
                old(Whole(groups, avail)) && (r == Ok ==> MadeFor(|Missing(old(Known()), batch)|, old(avail)) < 65536)
      ensures old(Complete()) && AllShort(batch) && Whole(groups, avail) ==> Complete()
    {
      hide NodesOk, NamesOf, GroupsOk, AllListed, Whole, KnownIn, Readable, Added, Missing, LookedUp, Indexed;
      BucketCount(Names(), buckets);
      ghost var was, known, room := Names(), Known(), avail;
      ghost var whole, tidy := Whole(groups, avail), Complete() && AllShort(batch);
      var missing;
      table, missing := FindAll(batch);
      var rehashed := MaybeRehash(missing);
      LookedUpIs(was, known, table, batch);
      r, table := FillIn(batch, table, missing, was, known, tidy);
      if Whole(groups, avail) && InPlace() { IsComplete(); }
    }

    /** Second pass of atom_table_ensure_atoms: the names not found get the next indices. */
    method FillIn(batch: seq<Name>, found: seq<Option<nat>>, missing: nat, ghost was: seq<Text>,
                  ghost known: set<Text>, ghost tidy: bool) returns (r: Result, table: seq<Option<nat>>)
      requires Valid() && Names() == was && missing == |Missing(known, batch)|
      requires Filled(was, known, was, found, batch, 0) && (tidy ==> AllShort(batch))
      requires |buckets| > 0 && (tidy ==> InPlace())
      modifies this`groups, this`avail, this`count, this`buckets
      ensures Valid() && |table| == |batch| && (r == Ok || r == AllocFail) && (plenty ==> r == Ok)
      ensures r == Ok ==> forall i :: 0 <= i < |batch| ==>
                table[i].Some? && Indexed(was, known, Names(), table[i].value, batch[i])
      ensures exists k :: 0 <= k <= |batch| && (r == Ok ==> k == |batch|)
                          && Names() == After(Stage(was, known), Many(batch, k))
      ensures Whole(groups, avail) <==>
                old(Whole(groups, avail)) && (r == Ok ==> MadeFor(missing, old(avail)) < 65536)
      ensures |buckets| > 0 && (tidy ==> InPlace())
    {
      hide NodesOk, NamesOf, GroupsOk, AllListed, Whole, Added, Missing, Filled, Indexed, RoomOk;
      ghost var room, whole := avail, Whole(groups, avail);
      var k, remaining := 0, missing;
      NoneAdded(known);
      assert batch[..0] == [] && was + [] == was && batch[..|batch|] == batch;
      RoomFirst(room, missing, whole);
      FilledSize(was, known, was, found, batch, 0);
      table, r := found, Ok;
      while k < |batch|
        invariant Valid() && |table| == |batch| && 0 <= k <= |batch| && r == Ok
        invariant Names() == was + Added(known, batch[..k])
        invariant remaining == missing - |Missing(known, batch[..k])|
        invariant RoomOk(avail, room, missing, remaining, Whole(groups, avail), whole)
        invariant Filled(was, known, Names(), table, batch, k)
        invariant |buckets| > 0 && (tidy ==> InPlace())
      {
        MissingStep(known, batch, k);
        AddedNext(known, batch, k);
        ghost var before, table0 := Names(), table;
        FilledAt(was, known, before, table, batch, k);
        if table[k].None? {
          RoomStep(avail, room, missing, remaining, Whole(groups, avail), whole);
          var ok, index := PlaceNext(batch[k], remaining);
          if !ok {
            assert Names() == After(Stage(was, known), Many(batch, k));
            return AllocFail, table;
          }
          table := table[k := Some(index)];
          remaining := remaining - 1;
        }
        FilledMore(was, known, before, Names(), table0, table, batch, k);
        k := k + 1;
      }
      RoomLast(avail, room, missing, Whole(groups, avail), whole);
      FilledAll(was, known, Names(), table, batch);
      assert Names() == After(Stage(was, known), Many(batch, k));
    }
  }

  /** Room that a group made for a batch gets: none is made if the last has enough. */
  function MadeFor(missing: nat, avail: nat): nat { if missing <= avail then 0 else missing - avail }

  /** Room left while a batch is filled in: first that of the last group, then of the one made
      for the rest. */
  ghost predicate RoomOk(avail: nat, room: nat, missing: nat, remaining: int, now: bool, whole: bool) {
    && 0 <= remaining <= missing
    && (now <==> whole && (missing - remaining <= room || MadeFor(missing, room) < 65536))
    && avail == if missing - remaining <= room then room - (missing - remaining) else remaining
  }

  lemma RoomFirst(room: nat, missing: nat, whole: bool)
    ensures RoomOk(room, room, missing, missing, whole, whole)
  {}

  lemma RoomStep(avail: nat, room: nat, missing: nat, remaining: int, now: bool, whole: bool)
    requires RoomOk(avail, room, missing, remaining, now, whole) && remaining > 0
    ensures avail == 0 ==> (now <==> whole)
    ensures RoomOk((if avail == 0 then remaining else avail) - 1, room, missing, remaining - 1,
                   now && (avail == 0 ==> remaining < 65536), whole)
  {}

  lemma RoomLast(avail: nat, room: nat, missing: nat, now: bool, whole: bool)
    requires RoomOk(avail, room, missing, 0, now, whole)
    ensures now <==> whole && MadeFor(missing, room) < 65536
  {}

  ghost predicate AllShort(batch: seq<Name>) { forall i :: 0 <= i < |batch| ==> |batch[i]| < 1024 }

  /** What a lookup says: the index field of a node with this text. */
  ghost predicate Answers(names: seq<Text>, index: nat, name: Name) {
    exists i :: 0 <= i < |names| && names[i] == name && index == Field(i)
  }

  /** The index given for a name: that of its node, or one of the new ones. */
  ghost predicate Indexed(was: seq<Text>, known: set<Name>, names: seq<Text>, index: nat, name: Name) {
    if name in known then Answers(names, index, name)
    else |was| <= index < |names| && names[index] == Kept(name)
  }

  /** With no more than 2^20 texts, the index given is one of the text kept of the name. */
  lemma IndexRight(was: seq<Text>, known: set<Text>, names: seq<Text>, index: nat, name: Name)
    requires Indexed(was, known, names, index, name) && |names| <= 0x10_0000
    ensures index < |names| && names[index] == Kept(name)
  {}

  /** The first pass: which names have a node, and what its index field says. */
  ghost predicate LookedUp(names: seq<Text>, known: set<Text>, table: seq<Option<nat>>, batch: seq<Name>) {
    |table| == |batch| && forall i :: 0 <= i < |batch| ==>
      if batch[i] in known then table[i].Some? && Answers(names, table[i].value, batch[i]) else table[i].None?
  }

  lemma NoneLookedUp(names: seq<Text>, known: set<Text>)
    ensures LookedUp(names, known, [], [])
  {}

  lemma LookedUpMore(names: seq<Text>, known: set<Text>, table: seq<Option<nat>>, batch: seq<Name>,
                     found: Option<nat>, name: Name)
    requires LookedUp(names, known, table, batch) && (found.Some? <==> name in known)
    requires found.Some? ==> Answers(names, found.value, name)
    ensures LookedUp(names, known, table + [found], batch + [name])
  {
    hide Answers;
  }

  /** The second pass, k names done: those have their index, the others what the first found. */
  ghost predicate Filled(was: seq<Text>, known: set<Text>, names: seq<Text>, table: seq<Option<nat>>,
                         batch: seq<Name>, k: nat) {
    && |table| == |batch| && k <= |batch| && was <= names
    && (forall x :: 0 <= x < k ==> table[x].Some? && Indexed(was, known, names, table[x].value, batch[x]))
    && (forall x :: k <= x < |batch| ==>
          if batch[x] in known then table[x].Some? && Answers(was, table[x].value, batch[x]) else table[x].None?)
  }

  lemma LookedUpIs(was: seq<Text>, known: set<Text>, table: seq<Option<nat>>, batch: seq<Name>)
    requires LookedUp(was, known, table, batch)
    ensures |table| == |batch| && Filled(was, known, was, table, batch, 0)
  {
    hide Answers, Indexed;
  }

  lemma FilledAt(was: seq<Text>, known: set<Text>, names: seq<Text>, table: seq<Option<nat>>, batch: seq<Name>, k: nat)
    requires Filled(was, known, names, table, batch, k) && k < |batch|
    ensures |table| == |batch| && (table[k].None? <==> batch[k] !in known)
  {
    hide Answers, Indexed;
  }

  lemma FilledSize(was: seq<Text>, known: set<Text>, names: seq<Text>, table: seq<Option<nat>>, batch: seq<Name>,
                   k: nat)
    requires Filled(was, known, names, table, batch, k)
    ensures |table| == |batch|
  {}

  lemma FilledAll(was: seq<Text>, known: set<Text>, names: seq<Text>, table: seq<Option<nat>>, batch: seq<Name>)
    requires Filled(was, known, names, table, batch, |batch|)
    ensures |table| == |batch| && forall x :: 0 <= x < |batch| ==>
              table[x].Some? && Indexed(was, known, names, table[x].value, batch[x])
  {
    hide Answers, Indexed;
  }

  lemma FilledMore(was: seq<Text>, known: set<Text>, before: seq<Text>, names: seq<Text>,
                   table: seq<Option<nat>>, table': seq<Option<nat>>, batch: seq<Name>, k: nat)
    requires Filled(was, known, before, table, batch, k) && k < |batch|
    requires table' == if batch[k] in known then table else table[k := Some(|before|)]
    requires names == before + if batch[k] in known then [] else [Kept(batch[k])]
    ensures Filled(was, known, names, table', batch, k + 1)
  {
    forall x | 0 <= x < k + 1 ensures table'[x].Some? && Indexed(was, known, names, table'[x].value, batch[x]) {
      if batch[x] in known { AnswersMore(if x < k then before else was, names, table[x].value, batch[x]); }
    }
  }

  lemma AnswersMore(names: seq<Text>, more: seq<Text>, index: nat, name: Name)
    requires Answers(names, index, name) && names <= more
    ensures Answers(more, index, name)
  {
    var i :| 0 <= i < |names| && names[i] == name && index == Field(i);
    assert more[i] == name;
  }

  lemma NoneAdded(known: set<Name>)
    ensures Added(known, []) == [] && Missing(known, []) == []
  {}

  lemma AddedNext(known: set<Name>, batch: seq<Name>, k: nat)
    requires k < |batch|
    ensures Added(known, batch[..k + 1]) ==
            Added(known, batch[..k]) + (if batch[k] in known then [] else [Kept(batch[k])])
  {
    assert batch[..k + 1][..k] == batch[..k];
    AddedStep(known, batch[..k + 1]);
  }

  lemma NotInChain(names: seq<Text>, buckets: seq<seq<Node>>, hash: Hash, name: Name)
    requires |buckets| > 0
    requires var chain := buckets[hash(name) % |buckets|]; forall x :: 0 <= x < |chain| ==> chain[x].key != name
    ensures name !in KnownIn(names, buckets, hash)
  {
    var chain := buckets[hash(name) % |buckets|];
    assert forall n :: n in chain ==> n.key != name;
  }

  lemma SurvivorsListed(groups: seq<Group>, avail: nat, buckets: seq<seq<Node>>, hash: Hash)
    requires GroupsOk(groups, avail) && |groups| > 0 && Whole(groups, avail) && |buckets| > 0
    requires forall i: nat :: Listed(NamesOf(groups), buckets, hash, i) <==> Survives(groups, avail, i)
    ensures AllListed(NamesOf(groups), buckets, hash)
  {
    hide NamesOf, GroupsOk, Listed, Survives;
    AllSurvive(groups, avail);
  }

  lemma GroupAppended(groups: seq<Group>, len: nat)
    requires GroupsOk(groups, 0) && |groups| > 0
    ensures var more := groups + [Group(|NamesOf(groups)|, len % 65536, [])];
            && GroupsOk(more, len) && NamesOf(more) == NamesOf(groups)
            && (Whole(more, len) <==> Whole(groups, 0) && len < 65536)
  {
    var more := groups + [Group(|NamesOf(groups)|, len % 65536, [])];
    assert more[..|groups|] == groups;
    forall g | 0 <= g < |groups|
      ensures more[..g] == groups[..g] && more[g] == groups[g] && Made(more, len, g) == Made(groups, 0, g) {}
    assert Made(more, len, |groups|) == len;
    if Whole(more, len) {
      forall g | 0 <= g < |groups| ensures Made(groups, 0, g) < 65536 { assert Made(more, len, g) < 65536; }
    }
  }

  lemma NameAppended(groups: seq<Group>, avail: nat, name: Text)
    requires GroupsOk(groups, avail) && |groups| > 0 && avail > 0
    ensures var last := |groups| - 1;
            var more := groups[last := groups[last].(names := groups[last].names + [name])];
            && GroupsOk(more, avail - 1) && NamesOf(more) == NamesOf(groups) + [name]
            && (Whole(more, avail - 1) <==> Whole(groups, avail))
  {
    var last := |groups| - 1;
    var more := groups[last := groups[last].(names := groups[last].names + [name])];
    forall g | 0 <= g < |groups|
      ensures more[..g] == groups[..g] && Made(more, avail - 1, g) == Made(groups, avail, g) {}
    assert more[..last] == groups[..last];
    assert NamesOf(groups[..last]) + (groups[last].names + [name]) ==
           NamesOf(groups[..last]) + groups[last].names + [name];
    if Whole(more, avail - 1) {
      forall g | 0 <= g < |groups| ensures Made(groups, avail, g) < 65536 { assert Made(more, avail - 1, g) < 65536; }
    }
  }
}
