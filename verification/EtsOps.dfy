/** Inserting into and updating tables: whatever goes wrong, the table is as it was. */
module EtsOps {
  import opened Prelude
  import opened Etf
  import opened Ets
  import opened EtsTable

  /** Rows under a key carry the key. */
  lemma HeldKey(k: Keying, buckets: seq<Chain>, key: Term, row: Row)
    requires TableOk(k, buckets) && row in RowsOf(k, buckets, key)
    ensures k.index < |row| && row[k.index] == key
  {
    var b := Slot(k, key);
    var c := buckets[b];
    var i := FindKey(k, c, key);
    var x :| 0 <= x < |Rows(c[i].entries)| && Rows(c[i].entries)[x] == row;
    assert c[i].entries[x] in c[i].entries;
  }

  // ---- inserting ----

  /** insert_one */
  method InsertOne(m: Multimap, row: Row, asNew: bool) returns (status: Status)
    requires m.Valid()
    modifies m
    ensures m.Valid() && (status == AllocationError ==> !m.plenty)
    ensures status != AllocationError ==>
              status == if m.keying.index >= |row| then BadEntry
                        else if asNew && old(m.Held(row[m.keying.index])) != [] then KeyExists
                        else Ok
    ensures status == Ok ==> forall key :: m.Held(key) == Inserted(m.kind, m.keying, key, old(m.Held(key)), [row])
    ensures status != Ok ==> m.buckets == old(m.buckets)
  {
    hide Inserted, TableOk, AllIdsOk, RowsOf;
    if m.keying.index >= |row| { return BadEntry; }
    if asNew {
      var rows;
      status, rows := m.Lookup(row[m.keying.index]);
      if status != Ok { return; }
      if |rows| > 0 { return KeyExists; }
    }
    status := m.Insert([row]);
  }

  /** The rows of a list of tuples, each long enough for the key. */
  predicate RowsOk(k: Keying, items: seq<Term>) {
    forall i :: 0 <= i < |items| ==> items[i].Tuple? && k.index < |items[i].elems|
  }

  function TupleRows(items: seq<Term>): (r: seq<Row>)
    requires forall i :: 0 <= i < |items| ==> items[i].Tuple?
    ensures |r| == |items| && forall i :: 0 <= i < |r| ==> r[i] == items[i].elems
  {
    seq(|items|, i requires 0 <= i < |items| && items[i].Tuple? => items[i].elems)
  }

  /** One of the rows has a key that the table has. */
  ghost predicate TakenKey(m: Multimap, items: seq<Term>)
    requires m.Valid() && RowsOk(m.keying, items)
    reads m
  {
    exists i :: 0 <= i < |items| && m.Held(items[i].elems[m.keying.index]) != []
  }

  /** insert_many: with asNew, one key that exists keeps all rows out. */
  method InsertMany(m: Multimap, items: seq<Term>, tail: Term, asNew: bool) returns (status: Status)
    requires m.Valid() && !tail.List?
    modifies m
    ensures m.Valid() && (status == AllocationError ==> !m.plenty)
    ensures status != AllocationError ==>
              status == if !(tail.Nil? && RowsOk(m.keying, items)) then BadEntry
                        else if asNew && old(TakenKey(m, items)) then KeyExists
                        else Ok
    ensures status == Ok ==>
              forall key :: m.Held(key) == Inserted(m.kind, m.keying, key, old(m.Held(key)), TupleRows(items))
    ensures status != Ok ==> m.buckets == old(m.buckets)
  {
    hide Inserted, TableOk, AllIdsOk, RowsOf;
    var keyExists := false;
    for i := 0 to |items|
      invariant m.Valid() && m.buckets == old(m.buckets) && RowsOk(m.keying, items[..i])
      invariant keyExists <==> asNew && exists j :: 0 <= j < i && old(m.Held(items[j].elems[m.keying.index])) != []
    {
      var t := items[i];
      if !t.Tuple? || m.keying.index >= |t.elems| { return BadEntry; }
      assert items[..i + 1] == items[..i] + [t];
      if asNew {
        var rows;
        status, rows := m.Lookup(t.elems[m.keying.index]);
        if status != Ok { return; }
        if |rows| > 0 { keyExists := true; }
      }
    }
    assert items[..|items|] == items;
    if !tail.Nil? { return BadEntry; }
    if keyExists { return KeyExists; }
    if |items| > 0 {
      var got := Granted(m.plenty);
      if !got { return AllocationError; }
    }
    status := m.Insert(TupleRows(items));
  }

  /** One tuple or a proper list. */
  predicate IsBatch(t: Term) { t.Tuple? || t.Nil? || (t.List? && t.tail.Nil?) }

  function Batch(t: Term): seq<Term> {
    if t.Tuple? then [t] else if t.List? then t.items else []
  }

  /** What can be inserted: tuples with a key. */
  predicate Insertable(k: Keying, entry: Term) { IsBatch(entry) && RowsOk(k, Batch(entry)) }

  /** ets_insert */
  method InsertTerm(m: Multimap, entry: Term, asNew: bool) returns (status: Status)
    requires m.Valid() && (entry.List? ==> !entry.tail.List?)
    modifies m
    ensures m.Valid() && (status == AllocationError ==> !m.plenty)
    ensures status != AllocationError ==>
              status == if !Insertable(m.keying, entry) then BadEntry
                        else if asNew && old(TakenKey(m, Batch(entry))) then KeyExists
                        else Ok
    ensures status == Ok ==>
              forall key :: m.Held(key) == Inserted(m.kind, m.keying, key, old(m.Held(key)), TupleRows(Batch(entry)))
    ensures status != Ok ==> m.buckets == old(m.buckets)
  {
    hide Inserted, TableOk, AllIdsOk, RowsOf;
    if entry.Tuple? {
      status := InsertOne(m, entry.elems, asNew);
      assert TupleRows([entry]) == [entry.elems] && Batch(entry)[0] == entry;
    } else if entry.Nil? {
      status := InsertMany(m, [], Nil, asNew);
      assert TupleRows([]) == [];
    } else if entry.List? {
      status := InsertMany(m, entry.items, entry.tail, asNew);
    } else {
      status := BadEntry;
    }
  }

  // ---- changing elements of a row ----

  /** term_from_int shifts four bits out. */
  function WrapSmall(arch: Arch, v: int): int {
    (v + Half(arch)) % (2 * Half(arch)) - Half(arch)
  }

  /** term_is_integer */
  predicate IsInteger(arch: Arch, t: Term) { t.Int? && IsSmall(arch, t.v) }

  /** Position in a row, counted from one; the key cannot be changed. */
  predicate Changeable(arch: Arch, row: Row, pos: Term, keyIndex: nat) {
    IsInteger(arch, pos) && 0 <= pos.v - 1 < |row| && pos.v - 1 != keyIndex
  }

  /** apply_spec */
  function ApplySpec(arch: Arch, row: Row, spec: Term, keyIndex: nat): Option<Row> {
    if spec.Tuple? && |spec.elems| == 2 && Changeable(arch, row, spec.elems[0], keyIndex)
    then Some(row[spec.elems[0].v - 1 := spec.elems[1]])
    else None
  }

  function ApplySpecs(arch: Arch, row: Row, specs: seq<Term>, keyIndex: nat): Option<Row>
    decreases |specs|
  {
    if |specs| == 0 then Some(row)
    else
      match ApplySpec(arch, row, specs[0], keyIndex)
      case Some(row') => ApplySpecs(arch, row', specs[1..], keyIndex)
      case None => None
  }

  /** A pair of a position in a row of this length, not that of the key, and a value. */
  predicate IsUpdate(arch: Arch, len: nat, spec: Term, keyIndex: nat) {
    && spec.Tuple? && |spec.elems| == 2 && spec.elems[0].Int? && IsSmall(arch, spec.elems[0].v)
    && 1 <= spec.elems[0].v <= len && spec.elems[0].v != keyIndex + 1
  }

  predicate AllUpdates(arch: Arch, len: nat, specs: seq<Term>, keyIndex: nat) {
    forall i :: 0 <= i < |specs| ==> IsUpdate(arch, len, specs[i], keyIndex)
  }

  /** Updates succeed exactly if each is such a pair. */
  lemma {:induction false} SpecsSucceed(arch: Arch, row: Row, specs: seq<Term>, keyIndex: nat)
    ensures ApplySpecs(arch, row, specs, keyIndex).Some? <==> AllUpdates(arch, |row|, specs, keyIndex)
    decreases |specs|
  {
    if |specs| > 0 {
      hide IsUpdate;
      OneUpdate(arch, row, specs[0], keyIndex);
      assert forall i :: 0 < i < |specs| ==> specs[i] == specs[1..][i - 1];
      var one := ApplySpec(arch, row, specs[0], keyIndex);
      if one.Some? { SpecsSucceed(arch, one.value, specs[1..], keyIndex); }
    }
  }

  lemma OneUpdate(arch: Arch, row: Row, spec: Term, keyIndex: nat)
    ensures ApplySpec(arch, row, spec, keyIndex).Some? <==> IsUpdate(arch, |row|, spec, keyIndex)
    ensures IsUpdate(arch, |row|, spec, keyIndex) ==>
              && 0 <= Position(spec) < |row|
              && ApplySpec(arch, row, spec, keyIndex).value == row[Position(spec) := spec.elems[1]]
  {}

  /** Each element is the value of the last update of its position. */
  ghost predicate Updated(specs: seq<Term>, row: Row) {
    forall j :: LastThere(specs, j) ==>
      var p := Position(specs[j]);
      0 <= p < |row| && specs[j].Tuple? && |specs[j].elems| == 2 && row[p] == specs[j].elems[1]
  }

  /** Updates leave the last value given for a position, and other elements as they were. */
  lemma {:induction false} ElementsLeft(arch: Arch, row: Row, specs: seq<Term>, keyIndex: nat)
    requires ApplySpecs(arch, row, specs, keyIndex).Some?
    ensures var r := ApplySpecs(arch, row, specs, keyIndex).value; Updated(specs, r) && OthersStay(specs, row, r)
    decreases |specs|
  {
    if |specs| > 0 {
      hide ApplySpec, Updated, OthersStay;
      OneUpdate(arch, row, specs[0], keyIndex);
      var row' := ApplySpec(arch, row, specs[0], keyIndex).value;
      ElementsLeft(arch, row', specs[1..], keyIndex);
      UpdatedStep(specs, row, ApplySpecs(arch, row', specs[1..], keyIndex).value);
    }
  }

  lemma UpdatedStep(specs: seq<Term>, was: Row, row: Row)
    requires |specs| > 0 && specs[0].Tuple? && |specs[0].elems| == 2 && 0 <= Position(specs[0]) < |was|
    requires Updated(specs[1..], row) && OthersStay(specs[1..], was[Position(specs[0]) := specs[0].elems[1]], row)
    ensures Updated(specs, row) && OthersStay(specs, was, row)
  {
    hide Position, LastThere, Untouched;
    forall j | LastThere(specs, j)
      ensures 0 <= j < |specs| && 0 <= Position(specs[j]) < |row| && specs[j].Tuple? && |specs[j].elems| == 2
              && row[Position(specs[j])] == specs[j].elems[1]
    {
      LastInside(specs, j);
      LastBehind(specs, j);
    }
    forall p | 0 <= p < |was| && Untouched(specs, p) ensures row[p] == was[p] {
      UntouchedBehind(specs, p);
    }
  }

  /** Specs leave the key and the length of a row. */
  lemma {:induction false} SpecsKeepKey(arch: Arch, row: Row, specs: seq<Term>, keyIndex: nat)
    requires keyIndex < |row| && ApplySpecs(arch, row, specs, keyIndex).Some?
    ensures var r := ApplySpecs(arch, row, specs, keyIndex).value; |r| == |row| && r[keyIndex] == row[keyIndex]
    decreases |specs|
  {
    if |specs| > 0 {
      var row' := ApplySpec(arch, row, specs[0], keyIndex).value;
      SpecsKeepKey(arch, row', specs[1..], keyIndex);
    }
  }

  datatype Counted = Counted(row: Row, value: int) | CountBad | CountOverflow | CountAborts

  /** What adding to an element is meant to give: the sum, or the value to set beyond the limit. */
  function Meant(v: int, delta: int, limit: Option<(int, int)>): int {
    var sum := v + delta;
    if limit.Some? && ((delta >= 0 && sum > limit.value.0) || (delta < 0 && sum < limit.value.0))
    then limit.value.1 else sum
  }

  /** Adding to an element: the word must hold the sum; the element and the value returned
      are the term made of the result, which keeps its low bits. */
  function AddTo(arch: Arch, row: Row, i: nat, delta: int, limit: Option<(int, int)>): Counted
    requires i < |row|
  {
    if !IsInteger(arch, row[i]) then CountBad
    else
      var sum := row[i].v + delta;
      if !(-16 * Half(arch) <= sum < 16 * Half(arch)) then CountOverflow
      else
        var value := WrapSmall(arch, Meant(row[i].v, delta, limit));
        Counted(row[i := Int(value)], value)
  }

  /** apply_op */
  function ApplyOp(arch: Arch, row: Row, op: Term, keyIndex: nat): Counted {
    if !op.Tuple? then CountAborts
    else if !(|op.elems| == 2 || |op.elems| == 4) then CountBad
    else if !Changeable(arch, row, op.elems[0], keyIndex) || !IsInteger(arch, op.elems[1]) then CountBad
    else
      var i := op.elems[0].v - 1;
      var plain := AddTo(arch, row, i, op.elems[1].v, None);
      if |op.elems| == 2 || !plain.Counted? then plain
      else if !IsInteger(arch, op.elems[2]) || !IsInteger(arch, op.elems[3]) then CountBad
      else AddTo(arch, row, i, op.elems[1].v, Some((op.elems[2].v, op.elems[3].v)))
  }

  /** Small integers never overflow the word. */
  lemma NeverOverflows(arch: Arch, row: Row, op: Term, keyIndex: nat)
    ensures ApplyOp(arch, row, op, keyIndex) != CountOverflow
  {}

  /** An operation on a row: two or four small integers, the first a position, not that of the
      key, where the row has a small integer. */
  predicate IsOperation(arch: Arch, row: Row, op: Term, keyIndex: nat) {
    && op.Tuple? && (|op.elems| == 2 || |op.elems| == 4)
    && (forall i :: 0 <= i < |op.elems| ==> op.elems[i].Int? && IsSmall(arch, op.elems[i].v))
    && 1 <= op.elems[0].v <= |row| && op.elems[0].v != keyIndex + 1
    && row[op.elems[0].v - 1].Int? && IsSmall(arch, row[op.elems[0].v - 1].v)
  }

  /** v' is the small integer that agrees with the sum of v and delta in the bits it has. */
  ghost predicate Adds(arch: Arch, v: int, delta: int, v': int) {
    IsSmall(arch, v') && (v' - (v + delta)) % (2 * Half(arch)) == 0
  }

  /** The sum goes beyond the threshold of an operation, on the side it counts to. */
  ghost predicate Beyond(op: Term, sum: int) {
    && op.Tuple? && |op.elems| == 4 && op.elems[1].Int? && op.elems[2].Int?
    && if op.elems[1].v >= 0 then sum > op.elems[2].v else sum < op.elems[2].v
  }

  /** Counting on from v: the set value where the sum goes beyond the threshold, else the sum. */
  ghost predicate Follows(arch: Arch, v: int, op: Term, v': int) {
    && op.Tuple? && |op.elems| >= 2 && op.elems[1].Int?
    && if Beyond(op, v + op.elems[1].v) then op.elems[3] == Int(v') else Adds(arch, v, op.elems[1].v, v')
  }

  /** An operation succeeds exactly on such a row, and counts on from its element. */
  lemma OperationFollows(arch: Arch, row: Row, op: Term, keyIndex: nat)
    ensures ApplyOp(arch, row, op, keyIndex).Counted? <==> IsOperation(arch, row, op, keyIndex)
    ensures IsOperation(arch, row, op, keyIndex) ==>
              var c, p := ApplyOp(arch, row, op, keyIndex), Position(op);
              && 0 <= p < |row| && row[p].Int? && c.row == row[p := Int(c.value)] && IsSmall(arch, c.value)
              && Follows(arch, row[p].v, op, c.value)
  {
    hide WrapSmall;
    if IsOperation(arch, row, op, keyIndex) {
      var v, delta := row[op.elems[0].v - 1].v, op.elems[1].v;
      WrapAgrees(arch, v + delta);
      if |op.elems| == 4 { WrapAgrees(arch, op.elems[3].v); }
    }
  }

  lemma WrapAgrees(arch: Arch, v: int)
    ensures IsSmall(arch, WrapSmall(arch, v)) && (WrapSmall(arch, v) - v) % (2 * Half(arch)) == 0
    ensures IsSmall(arch, v) ==> WrapSmall(arch, v) == v
  {}

  lemma WrapExact(arch: Arch, v: int)
    requires -2 * Half(arch) <= v < 2 * Half(arch)
    ensures WrapSmall(arch, v) == v <==> IsSmall(arch, v)
  {}

  /** The limit of an operation of four elements. */
  function Limit(op: Term): Option<(int, int)> {
    if op.Tuple? && |op.elems| == 4 && op.elems[2].Int? && op.elems[3].Int?
    then Some((op.elems[2].v, op.elems[3].v)) else None
  }

  /** An operation that succeeds leaves what is meant exactly if it has a limit on the side it
      counts to, or the sum is a small integer; the value returned is the element left. */
  lemma OperationExact(arch: Arch, row: Row, op: Term, keyIndex: nat)
    requires ApplyOp(arch, row, op, keyIndex).Counted?
    ensures var c := ApplyOp(arch, row, op, keyIndex); var i, delta := op.elems[0].v - 1, op.elems[1].v;
            && 0 <= i < |row| == |c.row| && row[i].Int? && c.row == row[i := Int(c.value)]
            && (c.value == Meant(row[i].v, delta, Limit(op)) <==>
                  |op.elems| == 4 || IsSmall(arch, row[i].v + delta))
  {
    var i, delta := op.elems[0].v - 1, op.elems[1].v;
    WrapExact(arch, Meant(row[i].v, delta, Limit(op)));
  }

  /** One more than the largest small integer wraps to the smallest. */
  lemma CounterWraps()
    ensures CountFrom(Bits64, [Nil, Int(0x7FF_FFFF_FFFF_FFFF)], Int(1), 0) ==
            CountedAll([Nil, Int(-0x800_0000_0000_0000)], [-0x800_0000_0000_0000])
  {
    assert WrapSmall(Bits64, 0x800_0000_0000_0000) == -0x800_0000_0000_0000;
  }

  // ---- updating ----

  /** The row an update starts from: the one that is there, or the default under the key. */
  function StartRow(have: seq<Row>, key: Term, default: Option<Row>, keyIndex: nat): Option<Row> {
    if |have| > 0 then Some(have[0])
    else if default.Some? && keyIndex < |default.value| then Some(default.value[keyIndex := key])
    else None
  }

  /** Why there is no such row. */
  function StartStatus(kind: Kind, have: seq<Row>, default: Option<Row>, keyIndex: nat): Status {
    if kind != Single then BadAccess
    else if |have| > 0 then Ok
    else if default.None? then TupleNotExists
    else if |default.value| <= keyIndex then BadEntry
    else Ok
  }

  /** lookup_or_default */
  method LookupOrDefault(m: Multimap, key: Term, default: Option<Row>) returns (status: Status, row: Row)
    requires m.Valid()
    ensures status == AllocationError ==> !m.plenty
    ensures status != AllocationError ==>
              && status == StartStatus(m.kind, m.Held(key), default, m.keying.index)
              && (status == BadAccess <==> m.kind != Single)
              && (status == TupleNotExists <==> m.kind == Single && m.Held(key) == [] && default.None?)
              && (status == BadEntry <==> m.kind == Single && m.Held(key) == [] && default.Some?
                                          && |default.value| <= m.keying.index)
              && status in {Ok, BadAccess, TupleNotExists, BadEntry}
    ensures status == Ok ==> StartRow(m.Held(key), key, default, m.keying.index) == Some(row)
                             && m.keying.index < |row| && row[m.keying.index] == key
    ensures status == Ok ==>
              if m.Held(key) != [] then m.Held(key) == [row]
              else default.Some? && |default.value| == |row|
                   && forall i :: 0 <= i < |row| && i != m.keying.index ==> row[i] == default.value[i]
  {
    hide TableOk, AllIdsOk, RowsOf;
    row := [];
    if m.kind != Single { return BadAccess, []; }
    var rows;
    status, rows := m.Lookup(key);
    if status != Ok { return; }
    if |rows| == 0 {
      if default.None? { return TupleNotExists, []; }
      if |default.value| <= m.keying.index { return BadEntry, []; }
    }
    var got := Granted(m.plenty);
    if !got { return AllocationError, []; }
    if |rows| == 0 {
      row := default.value[m.keying.index := key];
    } else {
      row := rows[0];
      HeldKey(m.keying, m.buckets, key, row);
    }
  }

  /** A set takes the one row under its key. */
  lemma OneRow(k: Keying, key: Term, have: seq<Row>, row: Row)
    requires |have| <= 1 && k.index < |row|
    ensures Inserted(Single, k, key, have, [row]) == if key == row[k.index] then [row] else have
  {
    SingleKeepsLatest(k, key, have, [row]);
    assert [row][..0] == [];
  }

  /** Writing back a row under its own key replaces that row and no other. */
  method PutBack(m: Multimap, key: Term, row: Row) returns (status: Status)
    requires m.Valid() && m.kind == Single && m.keying.index < |row| && row[m.keying.index] == key
    modifies m
    ensures m.Valid() && (status == Ok || status == AllocationError) && (m.plenty ==> status == Ok)
    ensures status == Ok ==> m.Held(key) == [row]
    ensures status == Ok ==> forall other :: other != key ==> m.Held(other) == old(m.Held(other))
    ensures status != Ok ==> m.buckets == old(m.buckets)
  {
    hide TableOk, AllIdsOk, RowsOf, Inserted;
    forall any
      ensures Inserted(Single, m.keying, any, m.Held(any), [row]) == if any == key then [row] else m.Held(any)
    {
      assert KindOk(m.kind, RowsOf(m.keying, m.buckets, any));
      OneRow(m.keying, any, m.Held(any), row);
    }
    status := m.Insert([row]);
  }

  /** ets_update_element */
  method UpdateElement(m: Multimap, arch: Arch, key: Term, spec: Term, default: Option<Row>) returns (status: Status)
    requires m.Valid()
    modifies m
    ensures m.Valid() && (status == AllocationError ==> !m.plenty)
    ensures status != AllocationError ==>
              var start := StartRow(old(m.Held(key)), key, default, m.keying.index);
              status == if StartStatus(m.kind, old(m.Held(key)), default, m.keying.index) != Ok
                        then StartStatus(m.kind, old(m.Held(key)), default, m.keying.index)
                        else if start.Some? && IsBatch(spec) &&
                          AllUpdates(arch, |start.value|, Batch(spec), m.keying.index) then Ok
                        else BadEntry
    ensures status == Ok ==>
              var start := StartRow(old(m.Held(key)), key, default, m.keying.index);
              && start.Some? && |m.Held(key)| == 1
              && Updated(Batch(spec), m.Held(key)[0]) && OthersStay(Batch(spec), start.value, m.Held(key)[0])
              && forall other :: other != key ==> m.Held(other) == old(m.Held(other))
    ensures status != Ok ==> m.buckets == old(m.buckets)
  {
    hide TableOk, AllIdsOk, RowsOf, ApplySpecs, StartRow, Updated, OthersStay, AllUpdates;
    var row;
    status, row := LookupOrDefault(m, key, default);
    if status != Ok { return; }
    if !(spec.Tuple? || spec.Nil? || spec.List?) { return BadEntry; }
    var specs := Batch(spec);
    var updated := RunSpecs(arch, row, specs, m.keying.index);
    SpecsSucceed(arch, row, specs, m.keying.index);
    if updated.None? || (spec.List? && !spec.tail.Nil?) { return BadEntry; }
    SpecsKeepKey(arch, row, specs, m.keying.index);
    ElementsLeft(arch, row, specs, m.keying.index);
    status := PutBack(m, key, updated.value);
  }

  /** The loop over the updates, up to the first that fails. */
  method RunSpecs(arch: Arch, row0: Row, specs: seq<Term>, keyIndex: nat) returns (r: Option<Row>)
    ensures r == ApplySpecs(arch, row0, specs, keyIndex)
  {
    hide ApplySpec;
    var row := row0;
    for i := 0 to |specs|
      invariant ApplySpecs(arch, row0, specs, keyIndex) == ApplySpecs(arch, row, specs[i..], keyIndex)
    {
      var next := ApplySpec(arch, row, specs[i], keyIndex);
      if next.None? { return None; }
      assert specs[i..][1..] == specs[i + 1..];
      row := next.value;
    }
    assert specs[|specs|..] == [];
    r := Some(row);
  }

  datatype CountedAll = CountedAll(row: Row, values: seq<int>) | Uncounted(status: Status)

  function ApplyOps(arch: Arch, row: Row, ops: seq<Term>, keyIndex: nat): CountedAll
    decreases |ops|
  {
    if |ops| == 0 then CountedAll(row, [])
    else
      match ApplyOp(arch, row, ops[0], keyIndex)
      case Counted(row', value) =>
        (match ApplyOps(arch, row', ops[1..], keyIndex)
         case CountedAll(last, values) => CountedAll(last, [value] + values)
         case Uncounted(status) => Uncounted(status))
      case CountBad => Uncounted(BadEntry)
      case CountOverflow => Uncounted(Overflow)
      case CountAborts => Uncounted(Aborted)
  }

  /** All operations before this item succeed, and it is no tuple. */
  ghost predicate StopsAt(arch: Arch, row: Row, ops: seq<Term>, keyIndex: nat, i: int) {
    0 <= i < |ops| && !ops[i].Tuple? && AllOperations(arch, row, ops[..i], keyIndex)
  }

  predicate AllOperations(arch: Arch, row: Row, ops: seq<Term>, keyIndex: nat) {
    forall i :: 0 <= i < |ops| ==> IsOperation(arch, row, ops[i], keyIndex)
  }

  /** Counting leaves a small integer, so it changes nothing for other operations. */
  lemma StillOperation(arch: Arch, row: Row, p: int, v: int, op: Term, keyIndex: nat)
    requires 0 <= p < |row| && row[p].Int? && IsSmall(arch, row[p].v) && IsSmall(arch, v)
    ensures IsOperation(arch, row, op, keyIndex) <==> IsOperation(arch, row[p := Int(v)], op, keyIndex)
  {}

  /** Operations succeed exactly if each is one on the row they start from. */
  lemma {:induction false} OpsSucceed(arch: Arch, row: Row, ops: seq<Term>, keyIndex: nat)
    ensures ApplyOps(arch, row, ops, keyIndex).CountedAll? <==> AllOperations(arch, row, ops, keyIndex)
    decreases |ops|
  {
    if |ops| > 0 {
      hide ApplyOp, IsOperation, Follows;
      OperationFollows(arch, row, ops[0], keyIndex);
      assert forall i :: 0 < i < |ops| ==> ops[i] == ops[1..][i - 1];
      var c := ApplyOp(arch, row, ops[0], keyIndex);
      if c.Counted? {
        OpsSucceed(arch, c.row, ops[1..], keyIndex);
        SmallThere(arch, row, ops[0], keyIndex);
        forall i | 0 < i < |ops|
          ensures IsOperation(arch, row, ops[i], keyIndex) <==> IsOperation(arch, c.row, ops[i], keyIndex)
        {
          StillOperation(arch, row, Position(ops[0]), c.value, ops[i], keyIndex);
        }
      }
    }
  }

  lemma SmallThere(arch: Arch, row: Row, op: Term, keyIndex: nat)
    requires IsOperation(arch, row, op, keyIndex)
    ensures var p := Position(op); 0 <= p < |row| && row[p].Int? && IsSmall(arch, row[p].v)
  {}

  lemma StopsIs(arch: Arch, row: Row, ops: seq<Term>, keyIndex: nat, i: int)
    ensures StopsAt(arch, row, ops, keyIndex, i) <==>
              0 <= i < |ops| && !ops[i].Tuple? && ApplyOps(arch, row, ops[..i], keyIndex).CountedAll?
  {
    hide ApplyOps, AllOperations;
    if 0 <= i < |ops| { OpsSucceed(arch, row, ops[..i], keyIndex); }
  }

  lemma StopsLater(arch: Arch, row: Row, ops: seq<Term>, keyIndex: nat, i: int)
    requires |ops| > 0 && i > 0
    ensures var c := ApplyOp(arch, row, ops[0], keyIndex);
            StopsAt(arch, row, ops, keyIndex, i) <==> c.Counted? && StopsAt(arch, c.row, ops[1..], keyIndex, i - 1)
  {
    hide ApplyOp, StopsAt;
    var c := ApplyOp(arch, row, ops[0], keyIndex);
    StopsIs(arch, row, ops, keyIndex, i);
    if c.Counted? { StopsIs(arch, c.row, ops[1..], keyIndex, i - 1); }
    if i < |ops| { assert ops[..i][1..] == ops[1..][..i - 1] && ops[..i][0] == ops[0]; }
  }

  /** Operations run into the assertion exactly if such an item is reached. */
  lemma {:induction false} OpsAbort(arch: Arch, row: Row, ops: seq<Term>, keyIndex: nat)
    ensures ApplyOps(arch, row, ops, keyIndex) == Uncounted(Aborted) <==>
              exists i :: StopsAt(arch, row, ops, keyIndex, i)
    decreases |ops|
  {
    if |ops| > 0 {
      hide StopsAt;
      var c := ApplyOp(arch, row, ops[0], keyIndex);
      StopsFirst(arch, row, ops, keyIndex);
      if c.Counted? {
        OpsAbort(arch, c.row, ops[1..], keyIndex);
        if i :| StopsAt(arch, c.row, ops[1..], keyIndex, i) {
          StopsInside(arch, c.row, ops[1..], keyIndex, i);
          StopsLater(arch, row, ops, keyIndex, i + 1);
        }
      }
      if i :| StopsAt(arch, row, ops, keyIndex, i) {
        StopsInside(arch, row, ops, keyIndex, i);
        if i > 0 { StopsLater(arch, row, ops, keyIndex, i); }
      }
    }
  }

  lemma StopsInside(arch: Arch, row: Row, ops: seq<Term>, keyIndex: nat, i: int)
    requires StopsAt(arch, row, ops, keyIndex, i)
    ensures 0 <= i < |ops|
  {}

  lemma StopsFirst(arch: Arch, row: Row, ops: seq<Term>, keyIndex: nat)
    requires |ops| > 0
    ensures StopsAt(arch, row, ops, keyIndex, 0) <==> ApplyOp(arch, row, ops[0], keyIndex) == CountAborts
  {
    assert ops[..0] == [];
  }

  /** A list of one integer, where an operation is meant. */
  lemma CounterAborts(arch: Arch, row: Row, keyIndex: nat)
    ensures CountFrom(arch, row, List([Int(1)], Nil), keyIndex) == Uncounted(Aborted)
  {
    assert StopsAt(arch, row, [Int(1)], keyIndex, 0);
    OpsAbort(arch, row, [Int(1)], keyIndex);
  }

  lemma {:induction false} OpsKeepKey(arch: Arch, row: Row, ops: seq<Term>, keyIndex: nat)
    requires keyIndex < |row| && ApplyOps(arch, row, ops, keyIndex).CountedAll?
    ensures var r := ApplyOps(arch, row, ops, keyIndex).row; |r| == |row| && r[keyIndex] == row[keyIndex]
    decreases |ops|
  {
    if |ops| > 0 { OpsKeepKey(arch, ApplyOp(arch, row, ops[0], keyIndex).row, ops[1..], keyIndex); }
  }

  /** Position an operation counts at. */
  function Position(op: Term): int {
    if op.Tuple? && |op.elems| > 0 && op.elems[0].Int? then op.elems[0].v - 1 else -1
  }

  ghost predicate LastThere(ops: seq<Term>, j: int) {
    0 <= j < |ops| && forall k :: j < k < |ops| ==> Position(ops[k]) != Position(ops[j])
  }

  /** Each value is the element left at its position, for the last operation there. */
  ghost predicate LeftBehind(ops: seq<Term>, row: Row, values: seq<int>) {
    |values| == |ops| && forall j :: LastThere(ops, j) ==>
      var p := Position(ops[j]); 0 <= p < |row| && row[p] == Int(values[j])
  }

  ghost predicate Untouched(ops: seq<Term>, p: int) { forall k :: 0 <= k < |ops| ==> Position(ops[k]) != p }

  /** Elements that no operation counts at stay. */
  ghost predicate OthersStay(ops: seq<Term>, was: Row, row: Row) {
    |row| == |was| && forall p :: 0 <= p < |was| && Untouched(ops, p) ==> row[p] == was[p]
  }

  lemma LastBehind(ops: seq<Term>, j: int)
    requires LastThere(ops, j) && |ops| > 0
    ensures j > 0 ==> LastThere(ops[1..], j - 1) && ops[1..][j - 1] == ops[j]
    ensures j == 0 ==> Untouched(ops[1..], Position(ops[0]))
  {
    hide Position;
    var rest := ops[1..];
    assert forall k :: 0 <= k < |rest| ==> rest[k] == ops[k + 1];
  }

  lemma UntouchedBehind(ops: seq<Term>, p: int)
    requires Untouched(ops, p) && |ops| > 0
    ensures Untouched(ops[1..], p) && Position(ops[0]) != p
  {
    hide Position;
  }

  lemma LeftStep(ops: seq<Term>, was: Row, v: int, row: Row, values: seq<int>)
    requires |ops| > 0 && 0 <= Position(ops[0]) < |was|
    requires LeftBehind(ops[1..], row, values) && OthersStay(ops[1..], was[Position(ops[0]) := Int(v)], row)
    ensures LeftBehind(ops, row, [v] + values) && OthersStay(ops, was, row)
  {
    hide Position, LastThere, Untouched;
    var all := [v] + values;
    assert forall j :: 0 < j < |all| ==> all[j] == values[j - 1];
    forall j | LastThere(ops, j)
      ensures 0 <= j < |ops| && 0 <= Position(ops[j]) < |row| && row[Position(ops[j])] == Int(all[j])
    {
      LastInside(ops, j);
      LastBehind(ops, j);
    }
    forall p | 0 <= p < |was| && Untouched(ops, p) ensures row[p] == was[p] {
      UntouchedBehind(ops, p);
    }
  }

  lemma LastInside(ops: seq<Term>, j: int)
    requires LastThere(ops, j)
    ensures 0 <= j < |ops|
  {}

  /** The values of a list of operations are the counters it leaves; other elements stay. */
  lemma {:induction false} ValuesLeft(arch: Arch, row: Row, ops: seq<Term>, keyIndex: nat)
    requires ApplyOps(arch, row, ops, keyIndex).CountedAll?
    ensures var r := ApplyOps(arch, row, ops, keyIndex);
            LeftBehind(ops, r.row, r.values) && OthersStay(ops, row, r.row)
    decreases |ops|
  {
    if |ops| > 0 {
      hide ApplyOp, LeftBehind, OthersStay;
      var c := ApplyOp(arch, row, ops[0], keyIndex);
      OperationPlace(arch, row, ops[0], keyIndex);
      var rest := ApplyOps(arch, c.row, ops[1..], keyIndex);
      ValuesLeft(arch, c.row, ops[1..], keyIndex);
      LeftStep(ops, row, c.value, rest.row, rest.values);
    }
  }

  lemma OperationPlace(arch: Arch, row: Row, op: Term, keyIndex: nat)
    requires ApplyOp(arch, row, op, keyIndex).Counted?
    ensures var c, p := ApplyOp(arch, row, op, keyIndex), Position(op);
            0 <= p < |row| && c.row == row[p := Int(c.value)]
  {}

  ghost predicate FirstThere(ops: seq<Term>, j: int) {
    0 <= j < |ops| && forall k :: 0 <= k < j ==> Position(ops[k]) != Position(ops[j])
  }

  /** i is the last operation before j at its position. */
  ghost predicate JustBefore(ops: seq<Term>, i: int, j: int) {
    && 0 <= i < j < |ops| && Position(ops[i]) == Position(ops[j])
    && forall k :: i < k < j ==> Position(ops[k]) != Position(ops[j])
  }

  /** Each value counts on from the element there, or from the last value at its position. */
  ghost predicate CountsOn(arch: Arch, ops: seq<Term>, was: Row, values: seq<int>) {
    && |values| == |ops|
    && (forall j :: FirstThere(ops, j) ==>
          var p := Position(ops[j]);
          0 <= p < |was| && was[p].Int? && Follows(arch, was[p].v, ops[j], values[j]))
    && (forall i, j :: JustBefore(ops, i, j) ==> Follows(arch, values[i], ops[j], values[j]))
  }

  lemma FirstLater(ops: seq<Term>, j: int)
    requires |ops| > 0 && j > 0
    ensures FirstThere(ops, j) ==> FirstThere(ops[1..], j - 1) && ops[1..][j - 1] == ops[j]
                                   && Position(ops[j]) != Position(ops[0])
    ensures JustBefore(ops, 0, j) ==> FirstThere(ops[1..], j - 1) && ops[1..][j - 1] == ops[j]
                                      && Position(ops[j]) == Position(ops[0])
  {
    hide Position;
  }

  lemma BeforeLater(ops: seq<Term>, i: int, j: int)
    requires |ops| > 0 && i > 0 && JustBefore(ops, i, j)
    ensures JustBefore(ops[1..], i - 1, j - 1) && ops[1..][j - 1] == ops[j]
  {
    hide Position;
  }

  lemma CountsOnStep(arch: Arch, ops: seq<Term>, was: Row, v: int, values: seq<int>)
    requires |ops| > 0 && 0 <= Position(ops[0]) < |was| && was[Position(ops[0])].Int?
    requires Follows(arch, was[Position(ops[0])].v, ops[0], v)
    requires CountsOn(arch, ops[1..], was[Position(ops[0]) := Int(v)], values)
    ensures CountsOn(arch, ops, was, [v] + values)
  {
    hide Position, Follows, FirstThere, JustBefore;
    var all, was' := [v] + values, was[Position(ops[0]) := Int(v)];
    assert forall j :: 0 < j < |all| ==> all[j] == values[j - 1];
    forall j | FirstThere(ops, j)
      ensures 0 <= j < |ops| && 0 <= Position(ops[j]) < |was| && was[Position(ops[j])].Int?
              && Follows(arch, was[Position(ops[j])].v, ops[j], all[j])
    {
      FirstInside(ops, j);
      if j > 0 { FirstLater(ops, j); }
    }
    forall i, j | JustBefore(ops, i, j)
      ensures 0 <= i < j < |ops| && Follows(arch, all[i], ops[j], all[j])
    {
      BeforeInside(ops, i, j);
      if i == 0 { FirstLater(ops, j); } else { BeforeLater(ops, i, j); }
    }
  }

  lemma FirstInside(ops: seq<Term>, j: int)
    requires FirstThere(ops, j)
    ensures 0 <= j < |ops|
  {}

  lemma BeforeInside(ops: seq<Term>, i: int, j: int)
    requires JustBefore(ops, i, j)
    ensures 0 <= i < j < |ops|
  {}

  /** The values of a list of operations count on from each other. */
  lemma {:induction false} ValuesCountOn(arch: Arch, row: Row, ops: seq<Term>, keyIndex: nat)
    requires ApplyOps(arch, row, ops, keyIndex).CountedAll?
    ensures CountsOn(arch, ops, row, ApplyOps(arch, row, ops, keyIndex).values)
    decreases |ops|
  {
    if |ops| > 0 {
      hide ApplyOp, IsOperation, Follows, CountsOn, Position;
      var c := ApplyOp(arch, row, ops[0], keyIndex);
      OperationFollows(arch, row, ops[0], keyIndex);
      ValuesCountOn(arch, c.row, ops[1..], keyIndex);
      CountsOnStep(arch, ops, row, c.value, ApplyOps(arch, c.row, ops[1..], keyIndex).values);
    }
  }

  /** An integer adds to the element behind the key; the values returned for operations are the
      counters in the row left, and count on from those that were there. */
  ghost predicate CountersLeft(arch: Arch, op: Term, keyIndex: nat, was: Row, row: Row, values: seq<int>) {
    if op.Int? then
      && |values| == 1 && keyIndex + 1 < |was| && was[keyIndex + 1].Int?
      && row == was[keyIndex + 1 := Int(values[0])] && Adds(arch, was[keyIndex + 1].v, op.v, values[0])
    else
      LeftBehind(Batch(op), row, values) && OthersStay(Batch(op), was, row) && CountsOn(arch, Batch(op), was, values)
  }

  /** A small integer with another behind the key, or operations on the row. */
  predicate Countable(arch: Arch, row: Row, op: Term, keyIndex: nat) {
    if op.Int? then IsSmall(arch, op.v) && keyIndex + 1 < |row| && row[keyIndex + 1].Int?
                    && IsSmall(arch, row[keyIndex + 1].v)
    else IsBatch(op) && AllOperations(arch, row, Batch(op), keyIndex)
  }

  /** What becomes of an update of counters, and why. */
  lemma CountStatus(arch: Arch, row: Row, op: Term, keyIndex: nat)
    ensures CountFrom(arch, row, op, keyIndex).CountedAll? <==> Countable(arch, row, op, keyIndex)
    ensures CountFrom(arch, row, op, keyIndex).Uncounted? ==>
              CountFrom(arch, row, op, keyIndex).status ==
              if RunsInto(arch, row, op, keyIndex) then Aborted else BadEntry
  {
    AbortsExactly(arch, row, op, keyIndex);
    hide ApplyOp, ApplyOps, AllOperations, RunsInto;
    if IsBatch(op) {
      OpsSucceed(arch, row, Batch(op), keyIndex);
      if ApplyOps(arch, row, Batch(op), keyIndex).Uncounted? { OpsFail(arch, row, Batch(op), keyIndex); }
    }
  }

  /** What an update of counters comes to: an integer counts the element behind the key. */
  function CountFrom(arch: Arch, row: Row, op: Term, keyIndex: nat): CountedAll {
    if IsInteger(arch, op) then
      if keyIndex + 1 >= |row| then Uncounted(BadEntry)
      else
        match AddTo(arch, row, keyIndex + 1, op.v, None)
        case Counted(row', value) => CountedAll(row', [value])
        case CountBad => Uncounted(BadEntry)
        case CountOverflow => Uncounted(Overflow)
        case CountAborts => Uncounted(Aborted)
    else if IsBatch(op) then ApplyOps(arch, row, Batch(op), keyIndex)
    else Uncounted(BadEntry)
  }

  /** The operations come to an item that is no tuple, all before it counted. */
  ghost predicate RunsInto(arch: Arch, row: Row, op: Term, keyIndex: nat) {
    IsBatch(op) && exists i :: StopsAt(arch, row, Batch(op), keyIndex, i)
  }

  lemma AbortsExactly(arch: Arch, row: Row, op: Term, keyIndex: nat)
    ensures CountFrom(arch, row, op, keyIndex) == Uncounted(Aborted) <==> RunsInto(arch, row, op, keyIndex)
  {
    hide ApplyOp, ApplyOps, StopsAt;
    if IsBatch(op) { OpsAbort(arch, row, Batch(op), keyIndex); }
  }

  /** Values already there, and what comes after them. */
  function Joined(values: seq<int>, rest: CountedAll): CountedAll {
    if rest.CountedAll? then CountedAll(rest.row, values + rest.values) else rest
  }

  lemma JoinedStep(arch: Arch, row: Row, ops: seq<Term>, i: nat, keyIndex: nat, values: seq<int>)
    requires i < |ops|
    ensures var all := Joined(values, ApplyOps(arch, row, ops[i..], keyIndex));
            match ApplyOp(arch, row, ops[i], keyIndex)
            case Counted(row', value) => all == Joined(values + [value], ApplyOps(arch, row', ops[i + 1..], keyIndex))
            case CountBad => all == Uncounted(BadEntry)
            case CountOverflow => all == Uncounted(Overflow)
            case CountAborts => all == Uncounted(Aborted)
  {
    hide ApplyOp;
    assert ops[i..][1..] == ops[i + 1..];
    var c := ApplyOp(arch, row, ops[i], keyIndex);
    if c.Counted? {
      var rest := ApplyOps(arch, c.row, ops[i + 1..], keyIndex);
      if rest.CountedAll? { assert values + ([c.value] + rest.values) == values + [c.value] + rest.values; }
    }
  }

  lemma JoinedEnds(arch: Arch, row: Row, ops: seq<Term>, keyIndex: nat, values: seq<int>)
    ensures Joined(values, ApplyOps(arch, row, ops[|ops|..], keyIndex)) == CountedAll(row, values)
    ensures Joined([], ApplyOps(arch, row, ops[0..], keyIndex)) == ApplyOps(arch, row, ops, keyIndex)
  {
    assert values + [] == values && ops[0..] == ops;
    var all := ApplyOps(arch, row, ops, keyIndex);
    if all.CountedAll? { assert [] + all.values == all.values; }
  }

  /** The running values of the counters, in the order of their operations. */
  method RunOps(arch: Arch, start: Row, ops: seq<Term>, keyIndex: nat) returns (r: CountedAll)
    ensures r == ApplyOps(arch, start, ops, keyIndex)
  {
    hide ApplyOp, ApplyOps, Joined;
    var row, values: seq<int> := start, [];
    JoinedEnds(arch, start, ops, keyIndex, []);
    for i := 0 to |ops|
      invariant ApplyOps(arch, start, ops, keyIndex) == Joined(values, ApplyOps(arch, row, ops[i..], keyIndex))
    {
      JoinedStep(arch, row, ops, i, keyIndex, values);
      var c := ApplyOp(arch, row, ops[i], keyIndex);
      if c.CountBad? { return Uncounted(BadEntry); }
      if c.CountOverflow? { return Uncounted(Overflow); }
      if c.CountAborts? { return Uncounted(Aborted); }
      row, values := c.row, values + [c.value];
    }
    JoinedEnds(arch, row, ops, keyIndex, values);
    r := CountedAll(row, values);
  }

  /** The switch over the operation, with no memory for the list of values as the one way out. */
  method CountRow(arch: Arch, row: Row, op: Term, keyIndex: nat, plenty: bool) returns (r: Option<CountedAll>)
    ensures r.None? ==> !plenty && op.List?
    ensures r.Some? ==> r.value == CountFrom(arch, row, op, keyIndex)
  {
    hide ApplyOp, ApplyOps;
    if IsInteger(arch, op) {
      if keyIndex + 1 >= |row| { return Some(Uncounted(BadEntry)); }
      var c := AddTo(arch, row, keyIndex + 1, op.v, None);
      if c.CountBad? { return Some(Uncounted(BadEntry)); }
      if c.CountOverflow? { return Some(Uncounted(Overflow)); }
      return Some(CountedAll(c.row, [c.value]));
    }
    if !(op.Tuple? || op.Nil? || op.List?) { return Some(Uncounted(BadEntry)); }
    if op.List? && !op.tail.Nil? { return Some(Uncounted(BadEntry)); }
    if op.List? {
      var got := Granted(plenty);
      if !got { return None; }
    }
    var counted := RunOps(arch, row, Batch(op), keyIndex);
    r := Some(counted);
  }

  /** Counting leaves the key alone, and its values are the counters it leaves. */
  lemma CountKeepsKey(arch: Arch, row: Row, op: Term, keyIndex: nat)
    requires keyIndex < |row|
    ensures match CountFrom(arch, row, op, keyIndex)
            case CountedAll(r, values) =>
              |r| == |row| && r[keyIndex] == row[keyIndex] && CountersLeft(arch, op, keyIndex, row, r, values)
            case Uncounted(_) => true
  {
    hide ApplyOp, ApplyOps, LeftBehind, OthersStay, CountsOn, WrapSmall;
    if op.Int? {
      if keyIndex + 1 < |row| && row[keyIndex + 1].Int? { WrapAgrees(arch, row[keyIndex + 1].v + op.v); }
    } else if IsBatch(op) {
      if ApplyOps(arch, row, Batch(op), keyIndex).CountedAll? {
        OpsKeepKey(arch, row, Batch(op), keyIndex);
        ValuesLeft(arch, row, Batch(op), keyIndex);
        ValuesCountOn(arch, row, Batch(op), keyIndex);
      }
    }
  }

  /** ets_update_counter: the values it returns are the counters it leaves. */
  method UpdateCounter(m: Multimap, arch: Arch, key: Term, op: Term, default: Option<Row>)
    returns (status: Status, values: seq<int>)
    requires m.Valid()
    modifies m
    ensures m.Valid() && (status == AllocationError ==> !m.plenty)
    ensures status != AllocationError ==>
              var start := StartRow(old(m.Held(key)), key, default, m.keying.index);
              status == if StartStatus(m.kind, old(m.Held(key)), default, m.keying.index) != Ok || start.None?
                        then StartStatus(m.kind, old(m.Held(key)), default, m.keying.index)
                        else if Countable(arch, start.value, op, m.keying.index) then Ok
                        else if RunsInto(arch, start.value, op, m.keying.index) then Aborted
                        else BadEntry
    ensures status == Ok ==>
              var start := StartRow(old(m.Held(key)), key, default, m.keying.index);
              && start.Some? && |m.Held(key)| == 1
              && CountersLeft(arch, op, m.keying.index, start.value, m.Held(key)[0], values)
              && forall other :: other != key ==> m.Held(other) == old(m.Held(other))
    ensures status != Ok ==> m.buckets == old(m.buckets)
  {
    hide TableOk, AllIdsOk, RowsOf, CountFrom, StartRow, CountersLeft, RunsInto, Countable;
    values := [];
    var row;
    status, row := LookupOrDefault(m, key, default);
    if status != Ok { return; }
    CountKeepsKey(arch, row, op, m.keying.index);
    CountStatus(arch, row, op, m.keying.index);
    var counted := CountRow(arch, row, op, m.keying.index, m.plenty);
    if counted.None? { return AllocationError, []; }
    if counted.value.Uncounted? { return counted.value.status, []; }
    status := PutBack(m, key, counted.value.row);
    values := counted.value.values;
  }

  lemma {:induction false} OpsFail(arch: Arch, row: Row, ops: seq<Term>, keyIndex: nat)
    requires ApplyOps(arch, row, ops, keyIndex).Uncounted?
    ensures ApplyOps(arch, row, ops, keyIndex).status in {BadEntry, Aborted}
    decreases |ops|
  {
    if |ops| > 0 {
      var c := ApplyOp(arch, row, ops[0], keyIndex);
      if c.Counted? { OpsFail(arch, c.row, ops[1..], keyIndex); }
    }
  }
}
