/** The multimap as it changes, with the ways it can run out of memory. */
module EtsTable {
  import opened Prelude
  import opened Etf
  import opened Ets

  /** ets_result_t; Aborted stands for an assertion that stops the machine. */
  datatype Status = Ok | AllocationError | BadEntry | KeyExists | TupleNotExists | BadAccess | Overflow | Aborted

  // ---- what a batch has added so far ----

  /** cur is old with new entries in front. */
  ghost predicate GrownNode(old_: Node, cur: Node, first: nat) {
    |old_.entries| <= |cur.entries| &&
    var p := |cur.entries| - |old_.entries|;
    cur.entries[p..] == old_.entries && forall x :: 0 <= x < p ==> cur.entries[x].id >= first
  }

  ghost predicate AllNew(n: Node, first: nat) { forall x :: 0 <= x < |n.entries| ==> n.entries[x].id >= first }

  /** New nodes in front of the old ones, and those grown. */
  ghost predicate GrownChain(old_: Chain, cur: Chain, first: nat) {
    |old_| <= |cur| &&
    var p := |cur| - |old_|;
    && (forall i :: 0 <= i < p ==> AllNew(cur[i], first))
    && (forall i :: p <= i < |cur| ==> GrownNode(old_[i - p], cur[i], first))
  }

  ghost predicate Grown(old_: seq<Chain>, cur: seq<Chain>, first: nat) {
    |old_| == |cur| && forall b :: 0 <= b < |cur| ==> GrownChain(old_[b], cur[b], first)
  }

  lemma GrownPrepended(old_: Chain, cur: Chain, first: nat, i: nat, e: Entry)
    requires GrownChain(old_, cur, first) && i < |cur| && e.id >= first
    ensures GrownChain(old_, Prepended(cur, i, e), first)
  {
    var p := |cur| - |old_|;
    if i >= p {
      var n := old_[i - p];
      var q := |cur[i].entries| - |n.entries|;
      assert ([e] + cur[i].entries)[q + 1..] == cur[i].entries[q..];
    }
  }

  lemma GrownNewNode(old_: Chain, cur: Chain, first: nat, e: Entry)
    requires GrownChain(old_, cur, first) && e.id >= first
    ensures GrownChain(old_, [Node([e])] + cur, first)
  {
    var p := |cur| - |old_|;
    var cur' := [Node([e])] + cur;
    forall i | p + 1 <= i < |cur'| ensures GrownNode(old_[i - (p + 1)], cur'[i], first) {
      assert cur'[i] == cur[i - 1];
    }
  }

  /** Ids from first on are the batch's own, and those in the table are in its slots. */
  predicate IdOk(id: nat, first: nat, hi: nat, slots: seq<Option<nat>>) {
    id < hi && (id >= first ==> id - first < |slots| && slots[id - first] == Some(id))
  }

  ghost predicate IdsOk(c: Chain, first: nat, hi: nat, slots: seq<Option<nat>>) {
    forall i, x :: 0 <= i < |c| && 0 <= x < |c[i].entries| ==> IdOk(c[i].entries[x].id, first, hi, slots)
  }

  ghost predicate AllIdsOk(buckets: seq<Chain>, first: nat, hi: nat, slots: seq<Option<nat>>) {
    forall b :: 0 <= b < |buckets| ==> IdsOk(buckets[b], first, hi, slots)
  }

  /** Slot j belongs to row j of the batch, and is emptied when the row was already there. */
  ghost predicate SlotsOk(slots: seq<Option<nat>>, first: nat) {
    forall j :: 0 <= j < |slots| ==> slots[j] == Some(first + j) || slots[j] == None
  }

  // ---- undoing a batch ----

  /** Everything up to the last entry of the batch is cut off. */
  ghost predicate CutBehind(entries: seq<Entry>, slots: seq<Option<nat>>, kept: nat) {
    kept <= |entries| && (kept > 0 ==> Some(entries[kept - 1].id) in slots)
    && forall x :: kept <= x < |entries| ==> Some(entries[x].id) !in slots
  }

  /** insert_revert on the entries of one node. */
  method RevertEntries(entries: seq<Entry>, slots: seq<Option<nat>>) returns (rest: seq<Entry>)
    ensures |rest| <= |entries| && CutBehind(entries, slots, |entries| - |rest|) &&
            rest == entries[|entries| - |rest|..]
  {
    var kept := 0;
    for x := 0 to |entries|
      invariant 0 <= kept <= x && (kept > 0 ==> Some(entries[kept - 1].id) in slots)
      invariant forall y :: kept <= y < x ==> Some(entries[y].id) !in slots
    {
      if Some(entries[x].id) in slots { kept := x + 1; }
    }
    rest := entries[kept..];
  }

  /** An id of the table is in the slots exactly when it is the batch's own. */
  lemma InSlots(id: nat, first: nat, hi: nat, slots: seq<Option<nat>>)
    requires IdOk(id, first, hi, slots) && SlotsOk(slots, first)
    ensures Some(id) in slots <==> id >= first
  {}

  /** A node that grew is cut back to what it was, and a new node to nothing. */
  lemma RevertedNode(was: seq<Entry>, cur: Node, first: nat, hi: nat, slots: seq<Option<nat>>, kept: nat)
    requires GrownNode(Node(was), cur, first) && SlotsOk(slots, first) && CutBehind(cur.entries, slots, kept)
    requires forall x :: 0 <= x < |was| ==> was[x].id < first
    requires forall x :: 0 <= x < |cur.entries| ==> IdOk(cur.entries[x].id, first, hi, slots)
    ensures cur.entries[kept..] == was
  {
    var p := |cur.entries| - |was|;
    forall x | 0 <= x < |cur.entries| ensures Some(cur.entries[x].id) in slots <==> x < p {
      InSlots(cur.entries[x].id, first, hi, slots);
      if x >= p { assert cur.entries[p..][x - p] == was[x - p]; }
    }
    if kept > 0 { assert Some(cur.entries[kept - 1].id) in slots; }
    if kept < |cur.entries| { assert Some(cur.entries[kept].id) !in slots; }
  }

  /** insert_revert on one bucket: an emptied node takes all nodes before it along. */
  method RevertChain(c: Chain, slots: seq<Option<nat>>, ghost was: Chain, ghost first: nat, ghost hi: nat)
    returns (r: Chain)
    requires GrownChain(was, c, first) && SlotsOk(slots, first) && IdsOk(c, first, hi, slots)
    requires IdsOk(was, first, first, []) && forall i :: 0 <= i < |was| ==> |was[i].entries| > 0
    ensures r == was
  {
    hide GrownChain, SlotsOk, IdsOk, CutBehind;
    ghost var p := |c| - |was|;
    GrownLonger(was, c, first);
    var chain, start := c, 0;
    for n := 0 to |c|
      invariant |chain| == |c| && start == if n < p then n else p
      invariant forall x :: n <= x < |c| ==> chain[x] == c[x]
      invariant forall x :: p <= x < n ==> chain[x] == was[x - p]
    {
      var rest := RevertEntries(chain[n].entries, slots);
      RevertedRest(was, c, first, hi, slots, n, |c[n].entries| - |rest|);
      chain := chain[n := Node(rest)];
      if rest == [] { start := n + 1; }
    }
    r := chain[start..];
    assert r == was;
  }

  lemma GrownLonger(was: Chain, c: Chain, first: nat)
    requires GrownChain(was, c, first)
    ensures |was| <= |c|
  {}

  lemma RevertedRest(was: Chain, c: Chain, first: nat, hi: nat, slots: seq<Option<nat>>, n: nat, kept: nat)
    requires GrownChain(was, c, first) && SlotsOk(slots, first) && IdsOk(c, first, hi, slots)
    requires IdsOk(was, first, first, []) && n < |c| && CutBehind(c[n].entries, slots, kept)
    ensures kept <= |c[n].entries|
    ensures c[n].entries[kept..] == if n < |c| - |was| then [] else was[n - (|c| - |was|)].entries
  {
    hide CutBehind, SlotsOk;
    var p := |c| - |was|;
    assert kept <= |c[n].entries| by { CutInside(c[n].entries, slots, kept); }
    if n < p {
      assert AllNew(c[n], first);
      assert c[n].entries[|c[n].entries|..] == [];
      RevertedNode([], c[n], first, hi, slots, kept);
    } else {
      var before := was[n - p].entries;
      forall x | 0 <= x < |before| ensures before[x].id < first {
        assert IdOk(before[x].id, first, first, []);
      }
      assert Node(before) == was[n - p];
      RevertedNode(before, c[n], first, hi, slots, kept);
    }
  }

  lemma CutInside(entries: seq<Entry>, slots: seq<Option<nat>>, kept: nat)
    requires CutBehind(entries, slots, kept)
    ensures kept <= |entries|
  {}

  // ---- one row more ----

  lemma IdsMore(c: Chain, first: nat, i: nat, slots: seq<Option<nat>>, slots': seq<Option<nat>>)
    requires IdsOk(c, first, first + i, slots) && |slots'| == |slots| && i < |slots|
    requires forall j :: 0 <= j < i ==> slots'[j] == slots[j]
    ensures IdsOk(c, first, first + i + 1, slots')
  {
    forall n, x | 0 <= n < |c| && 0 <= x < |c[n].entries|
      ensures IdOk(c[n].entries[x].id, first, first + i + 1, slots')
    {
      assert IdOk(c[n].entries[x].id, first, first + i, slots);
    }
  }

  lemma IdsPlaced(k: Keying, c: Chain, e: Entry, first: nat, hi: nat, slots: seq<Option<nat>>)
    requires IdsOk(c, first, hi, slots) && IdOk(e.id, first, hi, slots)
    requires k.index < |e.row| && forall j :: 0 <= j < |c| ==> HasKey(k, c[j])
    ensures IdsOk(Placed(k, c, e), first, hi, slots)
  {}

  lemma GrownPlaced(k: Keying, was: Chain, c: Chain, e: Entry, first: nat)
    requires GrownChain(was, c, first) && e.id >= first
    requires k.index < |e.row| && forall j :: 0 <= j < |c| ==> HasKey(k, c[j])
    ensures GrownChain(was, Placed(k, c, e), first)
  {
    hide GrownChain;
    var i := FindKey(k, c, e.row[k.index]);
    if i < |c| { GrownPrepended(was, c, first, i, e); } else { GrownNewNode(was, c, first, e); }
  }

  /** Where a batch stands after i rows. */
  ghost predicate Halfway(kind: Kind, k: Keying, was: seq<Chain>, cur: seq<Chain>, batch: seq<Row>, i: nat, first: nat,
                          slots: seq<Option<nat>>)
    requires TableOk(k, was)
  {
    && i <= |batch| == |slots| && TableOk(k, cur) && Grown(was, cur, first)
    && AllIdsOk(cur, first, first + i, slots) && SlotsOk(slots, first)
    && (forall j :: i <= j < |slots| ==> slots[j] == Some(first + j))
    && (forall key :: RowsOf(k, cur, key) == PushAll(kind, k, key, RowsOf(k, was, key), batch[..i]))
  }

  lemma PushedOne(kind: Kind, k: Keying, key: Term, have: seq<Row>, batch: seq<Row>, i: nat)
    requires i < |batch|
    ensures var before, row := PushAll(kind, k, key, have, batch[..i]), batch[i];
            PushAll(kind, k, key, have, batch[..i + 1]) ==
              if k.index < |row| && row[k.index] == key then Push(kind, before, row) else before
  {
    assert batch[..i + 1][..i] == batch[..i];
  }

  /** A row that is not there yet goes in front. */
  lemma HalfwayPlaced(kind: Kind, k: Keying, was: seq<Chain>, cur: seq<Chain>, batch: seq<Row>, i: nat, first: nat,
                      slots: seq<Option<nat>>)
    requires TableOk(k, was) && Halfway(kind, k, was, cur, batch, i, first, slots) && i < |batch|
    requires k.index < |batch[i]|
    requires kind == Unique ==> batch[i] !in RowsOf(k, cur, batch[i][k.index])
    ensures var e := Entry(first + i, batch[i]); var b := Slot(k, batch[i][k.index]);
            Halfway(kind, k, was, cur[b := Placed(k, cur[b], e)], batch, i + 1, first, slots)
  {
    hide ChainOk, RowsOf, GrownChain, IdsOk, Placed, PushAll;
    var e := Entry(first + i, batch[i]);
    var b := Slot(k, batch[i][k.index]);
    PlacedOk(k, cur, e);
    var cur' := cur[b := Placed(k, cur[b], e)];
    assert Grown(was, cur', first) by { GrownPlaced(k, was[b], cur[b], e, first); }
    IdsMore(cur[b], first, i, slots, slots);
    IdsPlaced(k, cur[b], e, first, first + i + 1, slots);
    forall x | 0 <= x < |cur'| ensures IdsOk(cur'[x], first, first + i + 1, slots) {
      IdsMore(cur[x], first, i, slots, slots);
    }
    forall key ensures RowsOf(k, cur', key) == PushAll(kind, k, key, RowsOf(k, was, key), batch[..i + 1]) {
      PlacedRows(k, cur, e, key);
      PushedOne(kind, k, key, RowsOf(k, was, key), batch, i);
      assert [] + RowsOf(k, cur, key) == RowsOf(k, cur, key);
    }
  }

  lemma PlacedOk(k: Keying, cur: seq<Chain>, e: Entry)
    requires TableOk(k, cur) && k.index < |e.row|
    ensures var b := Slot(k, e.row[k.index]);
            (forall j :: 0 <= j < |cur[b]| ==> HasKey(k, cur[b][j])) && TableOk(k, cur[b := Placed(k, cur[b], e)])
  {
    hide ChainOk;
    var b := Slot(k, e.row[k.index]);
    ChainHasKeys(k, cur[b], b);
    PlacedRows(k, cur, e, e.row[k.index]);
  }

  /** A row a bag has already is left out. */
  lemma HalfwaySkipped(kind: Kind, k: Keying, was: seq<Chain>, cur: seq<Chain>, batch: seq<Row>, i: nat, first: nat,
                       slots: seq<Option<nat>>)
    requires TableOk(k, was) && Halfway(kind, k, was, cur, batch, i, first, slots) && i < |batch|
    requires k.index < |batch[i]| && kind == Unique && batch[i] in RowsOf(k, cur, batch[i][k.index])
    ensures Halfway(kind, k, was, cur, batch, i + 1, first, slots[i := None])
  {
    hide ChainOk, RowsOf, GrownChain, IdsOk, PushAll;
    forall x | 0 <= x < |cur| ensures IdsOk(cur[x], first, first + i + 1, slots[i := None]) {
      IdsMore(cur[x], first, i, slots, slots[i := None]);
    }
    forall key ensures RowsOf(k, cur, key) == PushAll(kind, k, key, RowsOf(k, was, key), batch[..i + 1]) {
      PushedOne(kind, k, key, RowsOf(k, was, key), batch, i);
    }
  }

  lemma HalfwayStart(kind: Kind, k: Keying, was: seq<Chain>, batch: seq<Row>, first: nat, slots: seq<Option<nat>>)
    requires TableOk(k, was) && AllIdsOk(was, first, first, []) && |slots| == |batch|
    requires forall j :: 0 <= j < |slots| ==> slots[j] == Some(first + j)
    ensures Halfway(kind, k, was, was, batch, 0, first, slots)
  {
    hide ChainOk, RowsOf;
    forall b | 0 <= b < |was| ensures IdsOk(was[b], first, first, slots) && GrownChain(was[b], was[b], first) {
      StartIds(was[b], first, slots);
    }
  }

  lemma StartIds(c: Chain, first: nat, slots: seq<Option<nat>>)
    requires IdsOk(c, first, first, [])
    ensures IdsOk(c, first, first, slots) && GrownChain(c, c, first)
  {
    forall n, x | 0 <= n < |c| && 0 <= x < |c[n].entries| ensures IdOk(c[n].entries[x].id, first, first, slots) {
      assert IdOk(c[n].entries[x].id, first, first, []);
    }
  }

  // ---- the multimap ----

  class Multimap {
    const kind: Kind
    const keying: Keying
    /** whether memory never runs out */
    const plenty: bool
    var buckets: seq<Chain>
    var nextId: nat

    ghost predicate Valid()
      reads this
    {
      && TableOk(keying, buckets) && AllIdsOk(buckets, nextId, nextId, [])
      && forall key :: KindOk(kind, RowsOf(keying, buckets, key))
    }

    /** The rows of a key, latest first. */
    ghost function Held(key: Term): seq<Row>
      requires Valid()
      reads this
    {
      RowsOf(keying, buckets, key)
    }

    /** ets_multimap_new */
    constructor (kind: Kind, keying: Keying, plenty: bool)
      ensures Valid() && this.kind == kind && this.keying == keying && this.plenty == plenty
      ensures forall key :: Held(key) == []
    {
      this.kind := kind;
      this.keying := keying;
      this.plenty := plenty;
      buckets := seq(16, _ => []);
      nextId := 0;
    }

    /** node_find: comparing keys may run out of memory. */
    method NodeFind(key: Term) returns (status: Status, i: nat)
      requires TableOk(keying, buckets)
      ensures status == Ok || status == AllocationError
      ensures plenty ==> status == Ok
      ensures forall j :: 0 <= j < |buckets[Slot(keying, key)]| ==> HasKey(keying, buckets[Slot(keying, key)][j])
      ensures status == Ok ==> i == FindKey(keying, buckets[Slot(keying, key)], key)
    {
      var c := buckets[Slot(keying, key)];
      ChainHasKeys(keying, c, Slot(keying, key));
      i := 0;
      while i < |c|
        invariant 0 <= i <= |c| && forall j :: 0 <= j < i ==> NodeKey(keying, c[j]) != key
      {
        var got := Granted(plenty);
        if !got { return AllocationError, 0; }
        if NodeKey(keying, c[i]) == key { break; }
        i := i + 1;
      }
      status := Ok;
    }

    /** tuple_exists */
    method TupleExists(n: Node, row: Row) returns (status: Status, exists_: bool)
      ensures status == Ok || status == AllocationError
      ensures plenty ==> status == Ok
      ensures status == Ok ==> exists_ == (row in Rows(n.entries))
    {
      for i := 0 to |n.entries|
        invariant row !in Rows(n.entries)[..i]
      {
        var got := Granted(plenty);
        if !got { return AllocationError, false; }
        if row == n.entries[i].row {
          assert row == Rows(n.entries)[i];
          return Ok, true;
        }
      }
      status, exists_ := Ok, false;
      assert Rows(n.entries)[..|n.entries|] == Rows(n.entries);
    }

    /** ets_multimap_lookup */
    method Lookup(key: Term) returns (status: Status, rows: seq<Row>)
      requires Valid()
      ensures status == Ok || status == AllocationError
      ensures plenty ==> status == Ok
      ensures status == Ok ==> rows == Held(key)
    {
      var i;
      rows := [];
      status, i := NodeFind(key);
      if status != Ok { return; }
      var c := buckets[Slot(keying, key)];
      if i == |c| { return; }
      var got := Granted(plenty);
      if !got { status := AllocationError; return; }
      var entries := c[i].entries;
      for x := 0 to |entries|
        invariant rows == Rows(entries)[..x]
      {
        rows := rows + [entries[x].row];
      }
    }

    /** insert_revert */
    method Revert(slots: seq<Option<nat>>, ghost was: seq<Chain>, ghost first: nat, ghost hi: nat)
      requires |buckets| == 16 && TableOk(keying, was) && AllIdsOk(was, first, first, [])
      requires Grown(was, buckets, first) && SlotsOk(slots, first) && AllIdsOk(buckets, first, hi, slots)
      modifies this`buckets
      ensures buckets == was
    {
      hide ChainOk, IdsOk, GrownChain, SlotsOk;
      ghost var cur := buckets;
      for b := 0 to 16
        invariant |buckets| == 16
        invariant forall x :: 0 <= x < b ==> buckets[x] == was[x]
        invariant forall x :: b <= x < 16 ==> buckets[x] == cur[x]
      {
        assert ChainOk(keying, was[b], b);
        ChainHasKeys(keying, was[b], b);
        assert IdsOk(cur[b], first, hi, slots) && IdsOk(was[b], first, first, []) && GrownChain(was[b], cur[b], first);
        var r := RevertChain(buckets[b], slots, was[b], first, hi);
        buckets := buckets[b := r];
      }
    }

    /** multimap_to_single */
    method ToSingle()
      requires |buckets| == 16
      modifies this`buckets
      ensures |buckets| == 16 && forall b :: 0 <= b < 16 ==> buckets[b] == Cut(old(buckets)[b])
    {
      for b := 0 to 16
        invariant |buckets| == 16
        invariant forall x :: 0 <= x < b ==> buckets[x] == Cut(old(buckets)[x])
        invariant forall x :: b <= x < 16 ==> buckets[x] == old(buckets)[x]
      {
        var c := buckets[b];
        for n := 0 to |c|
          invariant |c| == |buckets[b]|
          invariant forall x :: 0 <= x < n ==> c[x] == Cut(buckets[b])[x]
          invariant forall x :: n <= x < |c| ==> c[x] == buckets[b][x]
        {
          if |c[n].entries| > 1 { c := c[n := Node(c[n].entries[..1])]; }
        }
        buckets := buckets[b := c];
      }
    }

    /** One row of a batch: placed, left out, or no memory for it. */
    method InsertRow(batch: seq<Row>, i: nat, first: nat, slots: seq<Option<nat>>, ghost was: seq<Chain>)
      returns (status: Status, slots': seq<Option<nat>>)
      requires TableOk(keying, was) && Halfway(kind, keying, was, buckets, batch, i, first, slots)
      requires i < |batch| && keying.index < |batch[i]|
      modifies this`buckets
      ensures status == Ok || (status == AllocationError && buckets == old(buckets) && slots' == slots)
      ensures status == Ok ==> Halfway(kind, keying, was, buckets, batch, i + 1, first, slots')
      ensures plenty ==> status == Ok
    {
      hide Halfway, ChainOk;
      slots' := slots;
      HalfwayOk(kind, keying, was, buckets, batch, i, first, slots);
      var entry := Entry(first + i, batch[i]);
      var key := entry.row[keying.index];
      var b := Slot(keying, key);
      var n;
      status, n := NodeFind(key);
      if status != Ok { return; }
      var c := buckets[b];
      if n == |c| {
        var got := Granted(plenty);
        if !got { status := AllocationError; return; }
        NothingHeld(keying, c, b, key);
        HalfwayPlaced(kind, keying, was, buckets, batch, i, first, slots);
        buckets := buckets[b := [Node([entry])] + c];
        return;
      }
      if kind == Unique {
        var found;
        status, found := TupleExists(c[n], entry.row);
        if status != Ok { return; }
        if found {
          HalfwaySkipped(kind, keying, was, buckets, batch, i, first, slots);
          slots' := slots[i := None];
          return;
        }
      }
      HalfwayPlaced(kind, keying, was, buckets, batch, i, first, slots);
      buckets := buckets[b := Prepended(c, n, entry)];
    }

    /** ets_multimap_insert: all rows, or none and the chains as they were. */
    method Insert(batch: seq<Row>) returns (status: Status)
      requires Valid() && forall i :: 0 <= i < |batch| ==> keying.index < |batch[i]|
      modifies this
      ensures Valid() && (status == Ok || status == AllocationError) && (plenty ==> status == Ok)
      ensures status == Ok ==> forall key :: Held(key) == Inserted(kind, keying, key, old(Held(key)), batch)
      ensures status != Ok ==> buckets == old(buckets)
    {
      hide Halfway, ChainOk, RowsOf, Inserted, IdsOk;
      ghost var was := buckets;
      if |batch| == 0 {
        NothingInserted(kind, keying, was);
        return Ok;
      }
      var got := Granted(plenty);
      if !got { return AllocationError; }
      var first, slots: seq<Option<nat>> := nextId, [];
      for i := 0 to |batch|
        invariant |slots| == i && nextId == first + i && buckets == was
        invariant forall j :: 0 <= j < i ==> slots[j] == Some(first + j)
      {
        got := Granted(plenty);
        if !got { IdsGrow(was, first, nextId); return AllocationError; }
        slots := slots + [Some(nextId)];
        nextId := nextId + 1;
      }
      HalfwayStart(kind, keying, was, batch, first, slots);
      status := Ok;
      var i := 0;
      while i < |batch| && status == Ok
        invariant i <= |batch| && Halfway(kind, keying, was, buckets, batch, i, first, slots)
        invariant nextId == first + |batch| && (status == Ok || status == AllocationError) && (plenty ==> status == Ok)
        invariant status == Ok || i < |batch|
        decreases |batch| - i, status == Ok
      {
        status, slots := InsertRow(batch, i, first, slots, was);
        if status == Ok { i := i + 1; }
      }
      HalfwayOk(kind, keying, was, buckets, batch, i, first, slots);
      if status != Ok {
        Revert(slots, was, first, first + i);
        IdsGrow(was, first, nextId);
      } else {
        if kind == Single {
          ghost var full := buckets;
          ToSingle();
          SettledSingle(keying, was, full, buckets, batch, first, slots);
        } else {
          SettledOther(kind, keying, was, buckets, batch, first, slots);
        }
      }
    }

    /** ets_multimap_remove */
    method Remove(key: Term) returns (status: Status)
      requires Valid()
      modifies this`buckets
      ensures Valid() && (status == Ok || status == AllocationError) && (plenty ==> status == Ok)
      ensures status == Ok ==> Held(key) == [] && forall other :: other != key ==> Held(other) == old(Held(other))
      ensures status != Ok ==> buckets == old(buckets)
    {
      hide ChainOk, RowsOf, IdsOk, KindOk;
      var n;
      status, n := NodeFind(key);
      if status != Ok { return; }
      var b := Slot(keying, key);
      var c := buckets[b];
      if n == |c| {
        NoNode(keying, buckets, key);
        return;
      }
      NodeRemoved(kind, keying, buckets, key, n, nextId);
      buckets := buckets[b := c[..n] + c[n + 1..]];
    }

    /** ets_multimap_remove_tuple */
    method RemoveTuple(row: Row) returns (status: Status)
      requires Valid()
      modifies this`buckets
      ensures Valid() && status in {Ok, BadEntry, AllocationError} && (plenty ==> status != AllocationError)
      ensures status == BadEntry <==> keying.index >= |row|
      ensures status == Ok ==> Held(row[keying.index]) == Except(old(Held(row[keying.index])), row)
      ensures status == Ok ==> forall other :: other != row[keying.index] ==> Held(other) == old(Held(other))
      ensures status != Ok ==> buckets == old(buckets)
    {
      hide ChainOk, RowsOf, IdsOk, KindOk, Except, Others;
      if keying.index >= |row| { return BadEntry; }
      var key := row[keying.index];
      var n;
      status, n := NodeFind(key);
      if status != Ok { return; }
      var b := Slot(keying, key);
      var c := buckets[b];
      if n == |c| {
        NoNode(keying, buckets, key);
        NothingExcept(row);
        return;
      }
      var got := Granted(plenty);
      if !got { return AllocationError; }
      var kept: seq<Entry> := [];
      var entries := c[n].entries;
      NoOthers(entries, row);
      for x := 0 to |entries|
        invariant kept == Others(entries[..x], row) && buckets == old(buckets) && Valid()
      {
        got := Granted(plenty);
        if !got { return AllocationError; }
        OthersSnoc(entries, x, row);
        if entries[x].row != row { kept := kept + [entries[x]]; }
      }
      assert entries[..|entries|] == entries;
      if kept == [] {
        NodeRemoved(kind, keying, buckets, key, n, nextId);
        AllRemoved(keying, buckets, key, n, row);
        buckets := buckets[b := c[..n] + c[n + 1..]];
      } else {
        NodeFiltered(kind, keying, buckets, key, n, row, nextId);
        buckets := buckets[b := c[n := Node(kept)]];
      }
    }
  }

  lemma HalfwayOk(kind: Kind, k: Keying, was: seq<Chain>, cur: seq<Chain>, batch: seq<Row>, i: nat, first: nat,
                  slots: seq<Option<nat>>)
    requires TableOk(k, was) && Halfway(kind, k, was, cur, batch, i, first, slots)
    ensures TableOk(k, cur) && Grown(was, cur, first) && SlotsOk(slots, first) && AllIdsOk(cur, first, first + i, slots)
    ensures |slots| == |batch|
  {}

  lemma NothingHeld(k: Keying, c: Chain, b: nat, key: Term)
    requires ChainOk(k, c, b) && FindKey(k, c, key) == |c|
    ensures Held(k, c, b, key) == []
  {}

  lemma IdsGrow(buckets: seq<Chain>, first: nat, hi: nat)
    requires AllIdsOk(buckets, first, first, []) && first <= hi
    ensures AllIdsOk(buckets, hi, hi, [])
  {
    forall b | 0 <= b < |buckets| ensures IdsOk(buckets[b], hi, hi, []) {
      var c := buckets[b];
      assert IdsOk(c, first, first, []);
      forall n, x | 0 <= n < |c| && 0 <= x < |c[n].entries| ensures IdOk(c[n].entries[x].id, hi, hi, []) {
        assert IdOk(c[n].entries[x].id, first, first, []);
      }
    }
  }

  lemma NothingInserted(kind: Kind, k: Keying, buckets: seq<Chain>)
    requires TableOk(k, buckets) && forall key :: KindOk(kind, RowsOf(k, buckets, key))
    ensures forall key :: RowsOf(k, buckets, key) == Inserted(kind, k, key, RowsOf(k, buckets, key), [])
  {
    hide ChainOk, RowsOf;
    forall key ensures RowsOf(k, buckets, key) == Inserted(kind, k, key, RowsOf(k, buckets, key), []) {
      assert KindOk(kind, RowsOf(k, buckets, key));
    }
  }

  /** What a batch leaves when it went through. */
  ghost predicate WentIn(kind: Kind, k: Keying, was: seq<Chain>, after: seq<Chain>, batch: seq<Row>, hi: nat)
    requires TableOk(k, was)
  {
    && TableOk(k, after) && AllIdsOk(after, hi, hi, [])
    && (forall key :: RowsOf(k, after, key) == Inserted(kind, k, key, RowsOf(k, was, key), batch))
    && (forall key :: KindOk(kind, RowsOf(k, after, key)))
  }

  lemma IdsSettled(c: Chain, first: nat, hi: nat, slots: seq<Option<nat>>)
    requires IdsOk(c, first, hi, slots)
    ensures IdsOk(c, hi, hi, []) && IdsOk(Cut(c), hi, hi, [])
  {
    forall n, x | 0 <= n < |c| && 0 <= x < |c[n].entries| ensures IdOk(c[n].entries[x].id, hi, hi, []) {
      assert IdOk(c[n].entries[x].id, first, hi, slots);
    }
  }

  lemma InsertedOk(kind: Kind, k: Keying, key: Term, have: seq<Row>, batch: seq<Row>)
    requires KindOk(kind, have)
    ensures KindOk(kind, Inserted(kind, k, key, have, batch))
  {
    if kind == Unique { UniqueKeepsEach(k, key, have, batch); }
  }

  lemma SettledSingle(k: Keying, was: seq<Chain>, full: seq<Chain>, after: seq<Chain>, batch: seq<Row>, first: nat,
                      slots: seq<Option<nat>>)
    requires TableOk(k, was) && Halfway(Single, k, was, full, batch, |batch|, first, slots)
    requires |after| == 16 && forall b :: 0 <= b < 16 ==> after[b] == Cut(full[b])
    requires forall key :: KindOk(Single, RowsOf(k, was, key))
    ensures WentIn(Single, k, was, after, batch, first + |batch|)
  {
    hide ChainOk, RowsOf, IdsOk, GrownChain, PushAll, KindOk, Cut;
    assert batch[..|batch|] == batch;
    forall key ensures TableOk(k, after) &&
      RowsOf(k, after, key) == Inserted(Single, k, key, RowsOf(k, was, key), batch)
                       && KindOk(Single, RowsOf(k, after, key)) {
      CutRows(k, full, after, key);
      InsertedOk(Single, k, key, RowsOf(k, was, key), batch);
    }
    CutRows(k, full, after, Nil);
    forall b | 0 <= b < 16 ensures IdsOk(after[b], first + |batch|, first + |batch|, []) {
      IdsSettled(full[b], first, first + |batch|, slots);
    }
  }

  lemma SettledOther(kind: Kind, k: Keying, was: seq<Chain>, after: seq<Chain>, batch: seq<Row>, first: nat,
                     slots: seq<Option<nat>>)
    requires kind != Single && TableOk(k, was) && Halfway(kind, k, was, after, batch, |batch|, first, slots)
    requires forall key :: KindOk(kind, RowsOf(k, was, key))
    ensures WentIn(kind, k, was, after, batch, first + |batch|)
  {
    hide ChainOk, RowsOf, IdsOk, GrownChain, PushAll, KindOk;
    assert batch[..|batch|] == batch;
    forall key ensures RowsOf(k, after, key) == Inserted(kind, k, key, RowsOf(k, was, key), batch)
                       && KindOk(kind, RowsOf(k, after, key)) {
      InsertedOk(kind, k, key, RowsOf(k, was, key), batch);
    }
    forall b | 0 <= b < 16 ensures IdsOk(after[b], first + |batch|, first + |batch|, []) {
      IdsSettled(after[b], first, first + |batch|, slots);
    }
  }

  // ---- removing from the table ----

  lemma NoNode(k: Keying, buckets: seq<Chain>, key: Term)
    requires TableOk(k, buckets)
    requires forall j :: 0 <= j < |buckets[Slot(k, key)]| ==> HasKey(k, buckets[Slot(k, key)][j])
    requires FindKey(k, buckets[Slot(k, key)], key) == |buckets[Slot(k, key)]|
    ensures RowsOf(k, buckets, key) == []
  {}

  /** The node at n is the one of the key. */
  ghost predicate NodeAt(k: Keying, buckets: seq<Chain>, key: Term, n: nat)
    requires TableOk(k, buckets)
  {
    var c := buckets[Slot(k, key)];
    n < |c| && HasKey(k, c[n]) && NodeKey(k, c[n]) == key
  }

  /** The key alone loses its rows. */
  ghost predicate Became(kind: Kind, k: Keying, was: seq<Chain>, after: seq<Chain>, key: Term, rows: seq<Row>, hi: nat)
    requires TableOk(k, was)
  {
    && TableOk(k, after) && AllIdsOk(after, hi, hi, [])
    && RowsOf(k, after, key) == rows
    && (forall other :: other != key ==> RowsOf(k, after, other) == RowsOf(k, was, other))
    && (forall any :: KindOk(kind, RowsOf(k, after, any)))
  }

  lemma NodeRemoved(kind: Kind, k: Keying, was: seq<Chain>, key: Term, n: nat, hi: nat)
    requires TableOk(k, was) && AllIdsOk(was, hi, hi, []) && NodeAt(k, was, key, n)
    requires forall any :: KindOk(kind, RowsOf(k, was, any))
    ensures var b := Slot(k, key);
            Became(kind, k, was, was[b := was[b][..n] + was[b][n + 1..]], key, [], hi)
  {
    hide ChainOk, Held, IdsOk, KindOk, HasKey;
    var b := Slot(k, key);
    var c := was[b];
    var after := was[b := c[..n] + c[n + 1..]];
    WithoutNode(k, c, b, n, key);
    assert IdsOk(after[b], hi, hi, []) by { IdsWithout(c, n, hi); }
    forall any ensures RowsOf(k, after, any) == if any == key then [] else RowsOf(k, was, any) {
      WithoutNode(k, c, b, n, any);
    }
    NothingIsOk(kind);
  }

  lemma NothingIsOk(kind: Kind)
    ensures KindOk(kind, [])
  {}

  lemma IdsWithout(c: Chain, n: nat, hi: nat)
    requires IdsOk(c, hi, hi, []) && n < |c|
    ensures IdsOk(c[..n] + c[n + 1..], hi, hi, [])
  {
    var r := c[..n] + c[n + 1..];
    forall i, x | 0 <= i < |r| && 0 <= x < |r[i].entries| ensures IdOk(r[i].entries[x].id, hi, hi, []) {
      assert r[i] == c[if i < n then i else i + 1];
    }
  }

  lemma IdsFewer(c: Chain, n: nat, kept: seq<Entry>, hi: nat)
    requires IdsOk(c, hi, hi, []) && n < |c| && forall e :: e in kept ==> e in c[n].entries
    ensures IdsOk(c[n := Node(kept)], hi, hi, [])
  {
    forall x | 0 <= x < |kept| ensures IdOk(kept[x].id, hi, hi, []) {
      assert kept[x] in c[n].entries;
      var y :| 0 <= y < |c[n].entries| && c[n].entries[y] == kept[x];
      assert IdOk(c[n].entries[y].id, hi, hi, []);
    }
  }

  /** No other row was left. */
  lemma AllRemoved(k: Keying, was: seq<Chain>, key: Term, n: nat, row: Row)
    requires TableOk(k, was) && NodeAt(k, was, key, n) && Others(was[Slot(k, key)][n].entries, row) == []
    ensures Except(RowsOf(k, was, key), row) == []
  {
    hide Others, Except;
    var c := was[Slot(k, key)];
    FindKeyIs(k, c, Slot(k, key), key, n);
    OthersRows(c[n].entries, row);
  }

  lemma NodeFiltered(kind: Kind, k: Keying, was: seq<Chain>, key: Term, n: nat, row: Row, hi: nat)
    requires TableOk(k, was) && AllIdsOk(was, hi, hi, []) && NodeAt(k, was, key, n)
    requires forall any :: KindOk(kind, RowsOf(k, was, any))
    requires Others(was[Slot(k, key)][n].entries, row) != []
    ensures var b := Slot(k, key);
            Became(kind, k, was, was[b := was[b][n := Node(Others(was[b][n].entries, row))]], key,
              Except(RowsOf(k, was, key), row), hi)
  {
    hide ChainOk, IdsOk, KindOk, HasKey, Others, Except, Rows, Held;
    var b := Slot(k, key);
    var c := was[b];
    var kept := Others(c[n].entries, row);
    OthersRows(c[n].entries, row);
    var after := was[b := c[n := Node(kept)]];
    FewerEntries(k, c, b, n, kept, key);
    HeldAt(k, c, b, n, key);
    assert IdsOk(after[b], hi, hi, []) by { IdsFewer(c, n, kept, hi); }
    forall any ensures RowsOf(k, after, any) == if any == key then Rows(kept) else RowsOf(k, was, any) {
      FewerEntries(k, c, b, n, kept, any);
    }
    ExceptKind(kind, RowsOf(k, was, key), row);
  }

  lemma HeldAt(k: Keying, c: Chain, b: nat, n: nat, key: Term)
    requires ChainOk(k, c, b) && n < |c| && HasKey(k, c[n]) && NodeKey(k, c[n]) == key
    ensures Held(k, c, b, key) == Rows(c[n].entries)
  {
    FindKeyIs(k, c, b, key, n);
  }
}
