/** ETS tables: a multimap of sixteen buckets, each a chain of nodes, one per key, each
    with a chain of entries. */
module Ets {
  import opened Etf

  /** The elements of a tuple. */
  type Row = seq<Term>

  /** EtsMultimapTypeSingle, EtsMultimapTypeSet, EtsMultimapTypeList */
  datatype Kind = Single | Unique | Many

  /** id stands for the address of the entry. */
  datatype Entry = Entry(id: nat, row: Row)

  datatype Node = Node(entries: seq<Entry>)

  type Chain = seq<Node>

  /** How rows are keyed: by which element, and by what hash. */
  datatype Keying = Keying(index: nat, hash: Term -> nat)

  // ---- what a key holds ----

  function Rows(entries: seq<Entry>): (r: seq<Row>)
    ensures |r| == |entries| && forall i :: 0 <= i < |r| ==> r[i] == entries[i].row
  {
    seq(|entries|, i requires 0 <= i < |entries| => entries[i].row)
  }

  predicate HasKey(k: Keying, n: Node) {
    |n.entries| > 0 && k.index < |n.entries[0].row|
  }

  /** node_key: the key of the first entry. */
  function NodeKey(k: Keying, n: Node): Term
    requires HasKey(k, n)
  {
    n.entries[0].row[k.index]
  }

  predicate NodeOk(k: Keying, n: Node) {
    HasKey(k, n) && forall e :: e in n.entries ==> k.index < |e.row| && e.row[k.index] == NodeKey(k, n)
  }

  function Slot(k: Keying, key: Term): nat { k.hash(key) % 16 }

  ghost predicate ChainOk(k: Keying, c: Chain, b: nat) {
    && (forall i :: 0 <= i < |c| ==> NodeOk(k, c[i]) && Slot(k, NodeKey(k, c[i])) == b)
    && (forall i, j :: 0 <= i < j < |c| ==> NodeKey(k, c[i]) != NodeKey(k, c[j]))
  }

  /** One node per key, in the bucket of its hash. */
  ghost predicate TableOk(k: Keying, buckets: seq<Chain>) {
    |buckets| == 16 && forall b :: 0 <= b < 16 ==> ChainOk(k, buckets[b], b)
  }

  /** Position of the node for a key, or the length. */
  function FindKey(k: Keying, c: Chain, key: Term): (i: nat)
    requires forall j :: 0 <= j < |c| ==> HasKey(k, c[j])
    ensures i <= |c| && (i < |c| ==> NodeKey(k, c[i]) == key)
    ensures forall j :: 0 <= j < i ==> NodeKey(k, c[j]) != key
  {
    if |c| == 0 || NodeKey(k, c[0]) == key then 0 else 1 + FindKey(k, c[1..], key)
  }

  ghost function Held(k: Keying, c: Chain, b: nat, key: Term): seq<Row>
    requires ChainOk(k, c, b)
  {
    var i := FindKey(k, c, key);
    if i < |c| then Rows(c[i].entries) else []
  }

  /** The rows of a key, latest first. */
  ghost function RowsOf(k: Keying, buckets: seq<Chain>, key: Term): seq<Row>
    requires TableOk(k, buckets)
  {
    Held(k, buckets[Slot(k, key)], Slot(k, key), key)
  }

  // ---- what inserting means, key by key ----

  function Push(kind: Kind, have: seq<Row>, row: Row): seq<Row> {
    if kind == Unique && row in have then have else [row] + have
  }

  /** The rows of the batch that have this key, one after the other. */
  function PushAll(kind: Kind, k: Keying, key: Term, have: seq<Row>, batch: seq<Row>): seq<Row> {
    if |batch| == 0 then have
    else
      var before := PushAll(kind, k, key, have, batch[..|batch| - 1]);
      var row := batch[|batch| - 1];
      if k.index < |row| && row[k.index] == key then Push(kind, before, row) else before
  }

  function Settle(kind: Kind, rows: seq<Row>): seq<Row> {
    if kind == Single && |rows| > 1 then rows[..1] else rows
  }

  function Inserted(kind: Kind, k: Keying, key: Term, have: seq<Row>, batch: seq<Row>): seq<Row> {
    Settle(kind, PushAll(kind, k, key, have, batch))
  }

  ghost predicate KindOk(kind: Kind, rows: seq<Row>) {
    && (kind == Single ==> |rows| <= 1)
    && (kind == Unique ==> forall i, j :: 0 <= i < j < |rows| ==> rows[i] != rows[j])
  }

  /** The rows of a batch with a given key, in order. */
  function Matching(k: Keying, key: Term, batch: seq<Row>): seq<Row> {
    if |batch| == 0 then []
    else
      var row := batch[|batch| - 1];
      Matching(k, key, batch[..|batch| - 1]) + (if k.index < |row| && row[k.index] == key then [row] else [])
  }

  function Backwards(rows: seq<Row>): seq<Row> {
    if |rows| == 0 then [] else [rows[|rows| - 1]] + Backwards(rows[..|rows| - 1])
  }

  /** A duplicate bag keeps everything, the latest first. */
  lemma {:induction false} ManyKeepsAll(k: Keying, key: Term, have: seq<Row>, batch: seq<Row>)
    ensures Inserted(Many, k, key, have, batch) == Backwards(Matching(k, key, batch)) + have
  {
    hide PushAll, Matching, Backwards;
    PushNone(Many, k, key, have);
    if |batch| > 0 {
      var front, row := batch[..|batch| - 1], batch[|batch| - 1];
      var m := Matching(k, key, front);
      ManyKeepsAll(k, key, have, front);
      PushLast(Many, k, key, have, batch);
      MatchLast(k, key, batch);
      BackwardsSnoc(m, row);
      assert m + [] == m;
      assert [row] + (Backwards(m) + have) == [row] + Backwards(m) + have;
    }
  }

  lemma PushNone(kind: Kind, k: Keying, key: Term, have: seq<Row>)
    ensures PushAll(kind, k, key, have, []) == have && Backwards(Matching(k, key, [])) + have == have
  {}

  lemma PushLast(kind: Kind, k: Keying, key: Term, have: seq<Row>, batch: seq<Row>)
    requires |batch| > 0
    ensures var before, row := PushAll(kind, k, key, have, batch[..|batch| - 1]), batch[|batch| - 1];
            PushAll(kind, k, key, have, batch) ==
            if k.index < |row| && row[k.index] == key then Push(kind, before, row) else before
  {}

  lemma MatchLast(k: Keying, key: Term, batch: seq<Row>)
    requires |batch| > 0
    ensures var row := batch[|batch| - 1];
            Matching(k, key, batch) ==
            Matching(k, key, batch[..|batch| - 1]) + if k.index < |row| && row[k.index] == key then [row] else []
  {}

  lemma BackwardsSnoc(m: seq<Row>, row: Row)
    ensures Backwards(m + [row]) == [row] + Backwards(m)
  {
    assert (m + [row])[..|m|] == m;
  }

  /** A set keeps the latest row of each key. */
  lemma {:induction false} SingleKeepsLatest(k: Keying, key: Term, have: seq<Row>, batch: seq<Row>)
    requires |have| <= 1
    ensures var m := Matching(k, key, batch);
            Inserted(Single, k, key, have, batch) == if |m| > 0 then [m[|m| - 1]] else have
  {
    AtTheFront(Single, k, key, have, batch);
  }

  lemma {:induction false} AtTheFront(kind: Kind, k: Keying, key: Term, have: seq<Row>, batch: seq<Row>)
    requires kind != Unique
    ensures var m, p := Matching(k, key, batch), PushAll(kind, k, key, have, batch);
            if |m| > 0 then |p| > 0 && p[0] == m[|m| - 1] else p == have
  {
    if |batch| > 0 { AtTheFront(kind, k, key, have, batch[..|batch| - 1]); }
  }

  /** A bag keeps each row once: what was there and what came, and nothing else. */
  lemma {:induction false} UniqueKeepsEach(k: Keying, key: Term, have: seq<Row>, batch: seq<Row>)
    requires KindOk(Unique, have)
    ensures KindOk(Unique, Inserted(Unique, k, key, have, batch))
    ensures forall row :: row in Inserted(Unique, k, key, have, batch) <==>
            row in have || row in Matching(k, key, batch)
  {
    if |batch| > 0 { UniqueKeepsEach(k, key, have, batch[..|batch| - 1]); }
  }

  // ---- changing one chain ----

  /** An entry in front of the node at i. */
  function Prepended(c: Chain, i: nat, e: Entry): Chain
    requires i < |c|
  {
    c[i := Node([e] + c[i].entries)]
  }

  lemma PrependedOk(k: Keying, c: Chain, b: nat, i: nat, e: Entry)
    requires ChainOk(k, c, b) && i < |c| && k.index < |e.row| && e.row[k.index] == NodeKey(k, c[i])
    ensures ChainOk(k, Prepended(c, i, e), b)
    ensures forall j :: 0 <= j < |c| ==> NodeKey(k, Prepended(c, i, e)[j]) == NodeKey(k, c[j])
  {}

  lemma NewNodeOk(k: Keying, c: Chain, b: nat, e: Entry)
    requires ChainOk(k, c, b) && k.index < |e.row| && Slot(k, e.row[k.index]) == b
    requires FindKey(k, c, e.row[k.index]) == |c|
    ensures ChainOk(k, [Node([e])] + c, b)
  {}

  /** The node of a key is where its key is. */
  lemma FindKeyIs(k: Keying, c: Chain, b: nat, key: Term, i: nat)
    requires ChainOk(k, c, b) && i < |c| && NodeKey(k, c[i]) == key
    ensures FindKey(k, c, key) == i
  {}

  lemma RowsCons(e: Entry, entries: seq<Entry>)
    ensures Rows([e] + entries) == [e.row] + Rows(entries)
  {}

  lemma PrependedHeld(k: Keying, c: Chain, b: nat, i: nat, e: Entry, key: Term)
    requires ChainOk(k, c, b) && i < |c| && k.index < |e.row| && e.row[k.index] == NodeKey(k, c[i])
    ensures ChainOk(k, Prepended(c, i, e), b)
    ensures Held(k, Prepended(c, i, e), b, key) == (if key == e.row[k.index] then [e.row] else []) + Held(k, c, b, key)
  {
    hide Rows;
    PrependedOk(k, c, b, i, e);
    RowsCons(e, c[i].entries);
    var j := FindKey(k, c, key);
    if j < |c| { FindKeyIs(k, Prepended(c, i, e), b, key, j); }
    if key == e.row[k.index] { FindKeyIs(k, c, b, key, i); }
  }

  lemma NewNodeHeld(k: Keying, c: Chain, b: nat, e: Entry, key: Term)
    requires ChainOk(k, c, b) && k.index < |e.row| && Slot(k, e.row[k.index]) == b
    requires FindKey(k, c, e.row[k.index]) == |c|
    ensures ChainOk(k, [Node([e])] + c, b)
    ensures Held(k, [Node([e])] + c, b, key) == (if key == e.row[k.index] then [e.row] else []) + Held(k, c, b, key)
  {
    hide Rows;
    NewNodeOk(k, c, b, e);
    RowsCons(e, []);
    assert [e] + [] == [e];
    NoRows();
    NewNodeFound(k, c, Node([e]), key);
    var j := FindKey(k, c, key);
    if j < |c| { assert ([Node([e])] + c)[1 + j] == c[j]; }
  }

  lemma NewNodeFound(k: Keying, c: Chain, n: Node, key: Term)
    requires HasKey(k, n) && forall j :: 0 <= j < |c| ==> HasKey(k, c[j])
    ensures FindKey(k, [n] + c, key) == if NodeKey(k, n) == key then 0 else 1 + FindKey(k, c, key)
  {
    assert ([n] + c)[1..] == c;
  }

  /** Where an entry goes: in front of its key's node, or in a new one. */
  ghost function Placed(k: Keying, c: Chain, e: Entry): Chain
    requires k.index < |e.row| && forall j :: 0 <= j < |c| ==> HasKey(k, c[j])
  {
    var i := FindKey(k, c, e.row[k.index]);
    if i < |c| then Prepended(c, i, e) else [Node([e])] + c
  }

  /** An entry more: its key has a row more, other keys have what they had. */
  lemma PlacedRows(k: Keying, buckets: seq<Chain>, e: Entry, key: Term)
    requires TableOk(k, buckets) && k.index < |e.row|
    ensures var own := e.row[k.index]; var b := Slot(k, own);
            var after := buckets[b := Placed(k, buckets[b], e)];
            TableOk(k, after) &&
            RowsOf(k, after, key) == (if key == own then [e.row] else []) + RowsOf(k, buckets, key)
  {
    hide ChainOk, Held;
    var own := e.row[k.index];
    var b := Slot(k, own);
    ChainHasKeys(k, buckets[b], b);
    var i := FindKey(k, buckets[b], own);
    if i < |buckets[b]| { PrependedHeld(k, buckets[b], b, i, e, key); } else { NewNodeHeld(k, buckets[b], b, e, key); }
    assert [] + RowsOf(k, buckets, key) == RowsOf(k, buckets, key);
  }

  lemma ChainHasKeys(k: Keying, c: Chain, b: nat)
    requires ChainOk(k, c, b)
    ensures forall j :: 0 <= j < |c| ==> HasKey(k, c[j])
  {}

  lemma NoRows()
    ensures Rows([]) == []
  {}

  /** Every chain cut to the latest entry of each node. */
  function Cut(c: Chain): (r: Chain)
    ensures |r| == |c|
    ensures forall i :: 0 <= i < |c| ==> r[i] == if |c[i].entries| > 1 then Node(c[i].entries[..1]) else c[i]
  {
    seq(|c|, i requires 0 <= i < |c| => if |c[i].entries| > 1 then Node(c[i].entries[..1]) else c[i])
  }

  lemma CutRows(k: Keying, buckets: seq<Chain>, after: seq<Chain>, key: Term)
    requires TableOk(k, buckets) && |after| == 16 && forall b :: 0 <= b < 16 ==> after[b] == Cut(buckets[b])
    ensures TableOk(k, after) && RowsOf(k, after, key) == Settle(Single, RowsOf(k, buckets, key))
  {
    forall b | 0 <= b < 16 ensures ChainOk(k, after[b], b) { CutOk(k, buckets[b], b); }
    var b := Slot(k, key);
    var c := buckets[b];
    var i := FindKey(k, c, key);
    CutOk(k, c, b);
    if i < |c| {
      FindKeyIs(k, after[b], b, key, i);
      assert Rows(c[i].entries)[..1] == Rows(c[i].entries[..1]);
    }
  }

  lemma CutOk(k: Keying, c: Chain, b: nat)
    requires ChainOk(k, c, b)
    ensures ChainOk(k, Cut(c), b) && forall i :: 0 <= i < |c| ==> NodeKey(k, Cut(c)[i]) == NodeKey(k, c[i])
  {}

  // ---- removing ----

  /** Entries of other rows. */
  function Others(entries: seq<Entry>, row: Row): seq<Entry> {
    if |entries| == 0 then []
    else
      var e := entries[|entries| - 1];
      Others(entries[..|entries| - 1], row) + (if e.row != row then [e] else [])
  }

  function Except(rows: seq<Row>, row: Row): seq<Row> {
    if |rows| == 0 then []
    else
      var r := rows[|rows| - 1];
      Except(rows[..|rows| - 1], row) + (if r != row then [r] else [])
  }

  lemma NoOthers(entries: seq<Entry>, row: Row)
    ensures Others(entries[..0], row) == []
  {}

  lemma NothingExcept(row: Row)
    ensures Except([], row) == []
  {}

  lemma OthersSnoc(entries: seq<Entry>, x: nat, row: Row)
    requires x < |entries|
    ensures Others(entries[..x + 1], row) ==
            Others(entries[..x], row) + (if entries[x].row != row then [entries[x]] else [])
  {
    assert entries[..x + 1][..x] == entries[..x];
  }

  lemma {:induction false} OthersRows(entries: seq<Entry>, row: Row)
    ensures Rows(Others(entries, row)) == Except(Rows(entries), row)
    ensures forall e :: e in Others(entries, row) ==> e in entries
  {
    hide Rows;
    if |entries| > 0 {
      var front, last := entries[..|entries| - 1], entries[|entries| - 1];
      OthersRows(front, row);
      assert Rows(entries)[..|entries| - 1] == Rows(front);
      assert Rows(Others(front, row) + [last]) == Rows(Others(front, row)) + [last.row];
      assert Others(front, row) + [] == Others(front, row);
    }
  }

  /** What is left is what was there and is not the row, without new repetitions. */
  lemma {:induction false} ExceptKind(kind: Kind, rows: seq<Row>, row: Row)
    requires KindOk(kind, rows)
    ensures KindOk(kind, Except(rows, row)) && |Except(rows, row)| <= |rows|
    ensures forall r :: r in rows && r != row <==> r in Except(rows, row)
  {
    if |rows| > 0 {
      var front := rows[..|rows| - 1];
      ExceptKind(kind, front, row);
      var last := rows[|rows| - 1];
      assert rows == front + [last];
      assert forall r :: r in rows <==> r in front || r == last;
      assert kind == Unique ==> last !in front;
      assert kind == Unique ==> last !in Except(front, row);
      assert kind == Single ==> front == [];
    }
  }

  lemma WithoutNodeOk(k: Keying, c: Chain, b: nat, i: nat)
    requires ChainOk(k, c, b) && i < |c|
    ensures ChainOk(k, c[..i] + c[i + 1..], b)
  {
    var r := c[..i] + c[i + 1..];
    forall x | 0 <= x < |r| ensures r[x] == c[if x < i then x else x + 1] {}
  }

  lemma NotFound(k: Keying, c: Chain, key: Term)
    requires forall j :: 0 <= j < |c| ==> HasKey(k, c[j]) && NodeKey(k, c[j]) != key
    ensures FindKey(k, c, key) == |c|
  {}

  /** A chain without one of its nodes. */
  lemma WithoutNode(k: Keying, c: Chain, b: nat, i: nat, key: Term)
    requires ChainOk(k, c, b) && i < |c|
    ensures ChainOk(k, c[..i] + c[i + 1..], b)
    ensures Held(k, c[..i] + c[i + 1..], b, key) == if key == NodeKey(k, c[i]) then [] else Held(k, c, b, key)
  {
    hide Rows, FindKey, NodeOk;
    var r := c[..i] + c[i + 1..];
    WithoutNodeOk(k, c, b, i);
    ChainHasKeys(k, c, b);
    ChainHasKeys(k, r, b);
    var j := FindKey(k, c, key);
    if key == NodeKey(k, c[i]) || j == |c| {
      forall x | 0 <= x < |r| ensures NodeKey(k, r[x]) != key {
        assert r[x] == c[if x < i then x else x + 1];
      }
      NotFound(k, r, key);
    } else {
      assert r[if j < i then j else j - 1] == c[j];
      FindKeyIs(k, r, b, key, if j < i then j else j - 1);
    }
  }

  lemma FewerEntriesOk(k: Keying, c: Chain, b: nat, i: nat, kept: seq<Entry>)
    requires ChainOk(k, c, b) && i < |c| && |kept| > 0 && forall e :: e in kept ==> e in c[i].entries
    ensures ChainOk(k, c[i := Node(kept)], b)
    ensures forall j :: 0 <= j < |c| ==>
            HasKey(k, c[i := Node(kept)][j]) && NodeKey(k, c[i := Node(kept)][j]) == NodeKey(k, c[j])
  {
    var r := c[i := Node(kept)];
    assert kept[0] in kept;
    assert NodeOk(k, r[i]) && NodeKey(k, r[i]) == NodeKey(k, c[i]);
  }

  /** A chain with one node cut down to some of its entries. */
  lemma FewerEntries(k: Keying, c: Chain, b: nat, i: nat, kept: seq<Entry>, key: Term)
    requires ChainOk(k, c, b) && i < |c| && |kept| > 0 && forall e :: e in kept ==> e in c[i].entries
    ensures ChainOk(k, c[i := Node(kept)], b)
    ensures Held(k, c[i := Node(kept)], b, key) == if key == NodeKey(k, c[i]) then Rows(kept) else Held(k, c, b, key)
  {
    hide Rows, FindKey, NodeOk;
    var r := c[i := Node(kept)];
    FewerEntriesOk(k, c, b, i, kept);
    ChainHasKeys(k, c, b);
    var j := FindKey(k, c, key);
    if key == NodeKey(k, c[i]) {
      FindKeyIs(k, r, b, key, i);
    } else if j < |c| {
      FindKeyIs(k, r, b, key, j);
    } else {
      NotFound(k, r, key);
    }
  }
}
