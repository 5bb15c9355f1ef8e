/** An observation table with its cursors (`storage.py`): rows keyed by (source, canonical id, time),
    and one cursor per (source, canonical id) that outlives the rows.

    The node table and the edge table are two instances.  V is the payload of a row; C is what a
    cursor keeps besides its time (the end points of an edge, nothing for a node). */
module ObservationTables {
  import opened Basics
  import Ordering
  import Consolidation

  type Source = Consolidation.Source

  datatype Item = Item(source: Source, id: string)

  datatype Key = Key(item: Item, time: int)

  datatype Row<V, C> = Row(item: Item, time: int, value: V, info: C) {
    function At(): Key { Key(item, time) }
  }

  datatype Stored<V, C> = Stored(value: V, info: C)

  datatype Cursor<C> = Cursor(time: int, info: C)

  datatype Table<V, C> = Table(rows: map<Key, Stored<V, C>>, cursors: map<Item, Cursor<C>>)

  /** WHERE NOT EXISTS (a cursor of the item at or after the row). */
  predicate Fresh<V, C>(cursors: map<Item, Cursor<C>>, row: Row<V, C>) {
    row.item !in cursors || row.time > cursors[row.item].time
  }

  /** INSERT OR IGNORE of one guarded row. */
  function InsertOrIgnore<V, C>(rows: map<Key, Stored<V, C>>, cursors: map<Item, Cursor<C>>, row: Row<V, C>)
    : map<Key, Stored<V, C>>
  {
    if Fresh(cursors, row) && row.At() !in rows then rows[row.At() := Stored(row.value, row.info)] else rows
  }

  /** ON CONFLICT DO UPDATE ... WHERE the new time is greater. */
  function Advance<V, C>(cursors: map<Item, Cursor<C>>, row: Row<V, C>): map<Item, Cursor<C>> {
    if Fresh(cursors, row) then cursors[row.item := Cursor(row.time, row.info)] else cursors
  }

  function InsertRows<V, C>(rows: map<Key, Stored<V, C>>, cursors: map<Item, Cursor<C>>, batch: seq<Row<V, C>>)
    : map<Key, Stored<V, C>>
  {
    if batch == [] then rows
    else
      var n := |batch| - 1;
      InsertOrIgnore(InsertRows(rows, cursors, batch[..n]), cursors, batch[n])
  }

  function AdvanceAll<V, C>(cursors: map<Item, Cursor<C>>, batch: seq<Row<V, C>>): map<Item, Cursor<C>> {
    if batch == [] then cursors
    else
      var n := |batch| - 1;
      Advance(AdvanceAll(cursors, batch[..n]), batch[n])
  }

  /** The table after `save` or `save_edges`: every row is tested against the cursors of before the
      batch, and the cursors advance afterwards. */
  function Saved<V, C>(t: Table<V, C>, batch: seq<Row<V, C>>): Table<V, C> {
    Table(InsertRows(t.rows, t.cursors, batch), AdvanceAll(t.cursors, batch))
  }

  /** The keys of the batch strictly newer than the cursors. */
  ghost function FreshKeys<V, C>(cursors: map<Item, Cursor<C>>, batch: seq<Row<V, C>>): set<Key> {
    set i: nat | i < |batch| && Fresh(cursors, batch[i]) :: batch[i].At()
  }

  // ------------------------------------------------------------ replace_edges

  /** Rows admitted by `replace_edges`: an exact key still stored, or newer than the cursor. */
  predicate Admitted<V, C>(t: Table<V, C>, row: Row<V, C>) {
    row.At() in t.rows || Fresh(t.cursors, row)
  }

  function AdmittedRows<V, C>(t: Table<V, C>, batch: seq<Row<V, C>>): seq<Row<V, C>> {
    if batch == [] then []
    else
      var n := |batch| - 1;
      AdmittedRows(t, batch[..n]) + (if Admitted(t, batch[n]) then [batch[n]] else [])
  }

  function ItemsOf<V, C>(batch: seq<Row<V, C>>): set<Item> {
    set i: nat | i < |batch| :: batch[i].item
  }

  function WithoutItems<V, C>(rows: map<Key, Stored<V, C>>, items: set<Item>): map<Key, Stored<V, C>> {
    map k | k in rows && k.item !in items :: rows[k]
  }

  predicate UniqueKeys<V, C>(batch: seq<Row<V, C>>) {
    forall i, j :: 0 <= i < j < |batch| ==> batch[i].At() != batch[j].At()
  }

  /** Plain INSERT of every row. */
  function AddRows<V, C>(rows: map<Key, Stored<V, C>>, batch: seq<Row<V, C>>): map<Key, Stored<V, C>> {
    if batch == [] then rows
    else
      var n := |batch| - 1;
      AddRows(rows, batch[..n])[batch[n].At() := Stored(batch[n].value, batch[n].info)]
  }

  datatype StoreError = WrongSource | UniqueViolation

  /** The table after `replace_edges`, or the error that rolls it back. */
  function Replaced<V, C>(t: Table<V, C>, source: Source, batch: seq<Row<V, C>>): Result<Table<V, C>, StoreError> {
    if exists i: nat | i < |batch| :: batch[i].item.source != source then Err(WrongSource)
    else
      var admitted := AdmittedRows(t, batch);
      if !UniqueKeys(admitted) then Err(UniqueViolation)
      else Ok(Table(AddRows(WithoutItems(t.rows, ItemsOf(admitted)), admitted), AdvanceAll(t.cursors, batch)))
  }

  // ------------------------------------------------------------ prune and purge

  function Pruned<V, C>(t: Table<V, C>, before: int): Table<V, C> {
    Table(map k | k in t.rows && k.time >= before :: t.rows[k], t.cursors)
  }

  /** Rows and cursors of the purged node, by the columns of each. */
  function Purged<V, C>(t: Table<V, C>, hit: (Item, C) -> bool): Table<V, C> {
    Table(map k | k in t.rows && !hit(k.item, t.rows[k].info) :: t.rows[k],
          map i | i in t.cursors && !hit(i, t.cursors[i].info) :: t.cursors[i])
  }

  // ------------------------------------------------------------ the store

  class ObservationTable<V, C> {
    var rows: map<Key, Stored<V, C>>
    var cursors: map<Item, Cursor<C>>

    function State(): Table<V, C>
      reads this
    {
      Table(rows, cursors)
    }

    constructor ()
      ensures State() == Table(map[], map[])
    {
      rows, cursors := map[], map[];
    }

    /** `save` and `save_edges` */
    method Save(batch: seq<Row<V, C>>) returns (inserted: nat)
      modifies this
      ensures State() == Saved(old(State()), batch)
      ensures inserted == |rows| - |old(rows)|
      ensures old(rows.Keys) <= rows.Keys
    {
      inserted := 0;
      for i := 0 to |batch|
        invariant cursors == old(cursors)
        invariant rows == InsertRows(old(rows), cursors, batch[..i])
        invariant inserted == |rows| - |old(rows)|
        invariant old(rows.Keys) <= rows.Keys
      {
        assert batch[..i + 1][..i] == batch[..i];
        if batch[i].item in cursors && cursors[batch[i].item].time >= batch[i].time {
          continue;
        }
        if batch[i].At() !in rows {
          rows := rows[batch[i].At() := Stored(batch[i].value, batch[i].info)];
          inserted := inserted + 1;
        }
      }
      assert batch[..|batch|] == batch;
      AdvanceCursors(batch);
    }

    method AdvanceCursors(batch: seq<Row<V, C>>)
      modifies this`cursors
      ensures cursors == AdvanceAll(old(cursors), batch)
    {
      for i := 0 to |batch|
        invariant cursors == AdvanceAll(old(cursors), batch[..i])
      {
        assert batch[..i + 1][..i] == batch[..i];
        var row := batch[i];
        if row.item !in cursors {
          cursors := cursors[row.item := Cursor(row.time, row.info)];
        } else if row.time > cursors[row.item].time {
          cursors := cursors[row.item := Cursor(row.time, row.info)];
        }
      }
      assert batch[..|batch|] == batch;
    }

    /** `replace_edges`: on an error the transaction is rolled back. */
    method Replace(source: Source, batch: seq<Row<V, C>>) returns (r: Result<nat, StoreError>)
      modifies this
      ensures match Replaced(old(State()), source, batch)
              case Ok(t) => State() == t && r == Ok(|AdmittedRows(old(State()), batch)|)
              case Err(e) => State() == old(State()) && r == Err(e)
    {
      if exists i: nat | i < |batch| :: batch[i].item.source != source {
        return Err(WrongSource);
      }
      var before := State();
      var admitted: seq<Row<V, C>> := [];
      for i := 0 to |batch|
        invariant admitted == AdmittedRows(before, batch[..i])
      {
        assert batch[..i + 1][..i] == batch[..i];
        if batch[i].At() in rows || batch[i].item !in cursors || batch[i].time > cursors[batch[i].item].time {
          admitted := admitted + [batch[i]];
        }
      }
      assert batch[..|batch|] == batch;
      var kept := WithoutItems(rows, ItemsOf(admitted));
      var added, ok := InsertPlain(kept, admitted);
      if !ok {
        return Err(UniqueViolation);
      }
      rows := added;
      AdvanceCursors(batch);
      return Ok(|admitted|);
    }

    /** INSERT without a conflict clause: the first repeated key fails. */
    method InsertPlain(kept: map<Key, Stored<V, C>>, batch: seq<Row<V, C>>)
      returns (added: map<Key, Stored<V, C>>, ok: bool)
      requires forall k :: k in kept ==> k.item !in ItemsOf(batch)
      ensures ok <==> UniqueKeys(batch)
      ensures ok ==> added == AddRows(kept, batch)
    {
      added := kept;
      for i := 0 to |batch|
        invariant UniqueKeys(batch[..i])
        invariant added == AddRows(kept, batch[..i])
      {
        var k := batch[i].At();
        assert batch[..i + 1][..i] == batch[..i];
        assert k !in kept by { assert batch[i].item in ItemsOf(batch); }
        AddedKeys(kept, batch[..i]);
        if k in added {
          var j :| 0 <= j < i && batch[..i][j].At() == k;
          return added, false;
        }
        UniqueExtend(batch, i);
        added := added[k := Stored(batch[i].value, batch[i].info)];
      }
      assert batch[..|batch|] == batch;
      ok := true;
    }

    /** The part of `prune` that concerns this table. */
    method Prune(before: int) returns (deleted: nat)
      modifies this`rows
      ensures State() == Pruned(old(State()), before)
      ensures forall k :: (k in rows <==> k in old(rows) && before <= k.time) && (k in rows ==> rows[k] == old(rows)[k])
      ensures cursors == old(cursors)
      ensures deleted == |old(rows)| - |rows|
    {
      ghost var all := rows.Keys;
      var kept := map k | k in rows && k.time >= before :: rows[k];
      assert |kept.Keys| <= |rows.Keys| by { Ordering.SubsetSize(kept.Keys, rows.Keys); }
      deleted := |rows| - |kept|;
      rows := kept;
    }

    /** The part of `purge_node` that concerns this table. */
    method Purge(hit: (Item, C) -> bool) returns (deleted: nat)
      modifies this
      ensures State() == Purged(old(State()), hit)
      ensures deleted == |old(rows)| - |rows|
    {
      cursors := map i | i in cursors && !hit(i, cursors[i].info) :: cursors[i];
      var kept := map k | k in rows && !hit(k.item, rows[k].info) :: rows[k];
      assert |kept.Keys| <= |rows.Keys| by { Ordering.SubsetSize(kept.Keys, rows.Keys); }
      deleted := |rows| - |kept|;
      rows := kept;
    }
  }

  lemma UniqueExtend<V, C>(batch: seq<Row<V, C>>, i: nat)
    requires i < |batch| && UniqueKeys(batch[..i])
    requires !HasKey(batch[..i], batch[i].At())
    ensures UniqueKeys(batch[..i + 1])
  {
    forall j | 0 <= j < i ensures batch[..i + 1][j] == batch[..i][j] && batch[j].At() != batch[i].At() {
      assert batch[..i][j] == batch[j];
    }
  }

  // ------------------------------------------------------------ one batch

  lemma {:induction false} InsertedKeys<V, C>(rows: map<Key, Stored<V, C>>, cursors: map<Item, Cursor<C>>,
                                              batch: seq<Row<V, C>>)
    ensures InsertRows(rows, cursors, batch).Keys == rows.Keys + FreshKeys(cursors, batch)
    ensures forall k :: k in rows ==> InsertRows(rows, cursors, batch)[k] == rows[k]
  {
    if batch != [] {
      var n := |batch| - 1;
      InsertedKeys(rows, cursors, batch[..n]);
      assert FreshKeys(cursors, batch)
          == FreshKeys(cursors, batch[..n]) + (if Fresh(cursors, batch[n]) then {batch[n].At()} else {}) by {
        forall k | k in FreshKeys(cursors, batch)
          ensures k in FreshKeys(cursors, batch[..n]) + (if Fresh(cursors, batch[n]) then {batch[n].At()} else {})
        {
          var i :| 0 <= i < |batch| && Fresh(cursors, batch[i]) && batch[i].At() == k;
          assert i < n ==> batch[..n][i] == batch[i];
        }
        forall i | 0 <= i < n ensures batch[..n][i] == batch[i] {}
      }
    }
  }

  /** The time up to which an item's observations are known. */
  function Known<C>(cursors: map<Item, Cursor<C>>, item: Item): Option<int> {
    if item in cursors then Some(cursors[item].time) else None
  }

  predicate AtLeast(a: Option<int>, b: Option<int>) {
    b.None? || (a.Some? && a.value >= b.value)
  }

  /** After a batch every cursor is the maximum of what it was and the batch's times for its item. */
  lemma {:induction false} AdvancedCursors<V, C>(cursors: map<Item, Cursor<C>>, batch: seq<Row<V, C>>, item: Item)
    ensures var after := Known(AdvanceAll(cursors, batch), item);
            && AtLeast(after, Known(cursors, item))
            && (forall i :: 0 <= i < |batch| && batch[i].item == item ==> AtLeast(after, Some(batch[i].time)))
            && (after == Known(cursors, item) || exists i :: 0 <= i < |batch| && batch[i].item == item
                                                       && Fresh(cursors, batch[i]) && after == Some(batch[i].time))
  {
    if batch != [] {
      var n := |batch| - 1;
      AdvancedCursors(cursors, batch[..n], item);
      forall i | 0 <= i < n ensures batch[..n][i] == batch[i] {}
      var before := Known(AdvanceAll(cursors, batch[..n]), item);
      if before != Known(cursors, item) {
        var i :| && 0 <= i < n && batch[..n][i].item == item && Fresh(cursors, batch[..n][i])
                 && before == Some(batch[..n][i].time);
        assert batch[i].item == item && Fresh(cursors, batch[i]);
      }
    }
  }

  lemma {:induction false} NothingFresh<V, C>(t: Table<V, C>, batch: seq<Row<V, C>>)
    requires forall i :: 0 <= i < |batch| ==> !Fresh(t.cursors, batch[i])
    ensures Saved(t, batch) == t
  {
    if batch != [] {
      var n := |batch| - 1;
      forall i | 0 <= i < n ensures batch[..n][i] == batch[i] {}
      NothingFresh(t, batch[..n]);
    }
  }

  // ------------------------------------------------------------ runs

  datatype Op<V, !C> =
    | SaveOp(batch: seq<Row<V, C>>)
    | ReplaceOp(source: Source, edges: seq<Row<V, C>>)
    | PruneOp(before: int)
    | PurgeOp(hit: (Item, C) -> bool)

  function Step<V, C>(t: Table<V, C>, op: Op<V, C>): Table<V, C> {
    match op
    case SaveOp(batch) => Saved(t, batch)
    case ReplaceOp(source, edges) =>
      var r := Replaced(t, source, edges);
      if r.Ok? then r.value else t
    case PruneOp(before) => Pruned(t, before)
    case PurgeOp(hit) => Purged(t, hit)
  }

  function Run<V, C>(t: Table<V, C>, ops: seq<Op<V, C>>): Table<V, C> {
    if ops == [] then t else Step(Run(t, ops[..|ops| - 1]), ops[|ops| - 1])
  }

  /** The operation does not purge the item: neither its cursor nor any of its rows is hit. */
  predicate Spares<V, C>(t: Table<V, C>, op: Op<V, C>, item: Item) {
    op.PurgeOp? ==> && (item in t.cursors ==> !op.hit(item, t.cursors[item].info))
                    && forall k :: k in t.rows && k.item == item ==> !op.hit(item, t.rows[k].info)
  }

  predicate AllSpare<V, C>(t: Table<V, C>, ops: seq<Op<V, C>>, item: Item) {
    ops != [] ==>
      var front, last := ops[..|ops| - 1], ops[|ops| - 1];
      AllSpare(t, front, item) && Spares(Run(t, front), last, item)
  }

  /** No row of the item is beyond its cursor, and while any row remains the newest is at the cursor. */
  ghost predicate Consistent<V, C>(t: Table<V, C>, item: Item) {
    forall k :: k in t.rows && k.item == item ==>
      item in t.cursors && k.time <= t.cursors[item].time && Key(item, t.cursors[item].time) in t.rows
  }

  lemma SaveKeepsConsistent<V, C>(t: Table<V, C>, batch: seq<Row<V, C>>, item: Item)
    requires Consistent(t, item)
    ensures Consistent(Saved(t, batch), item)
  {
    var after := Saved(t, batch);
    InsertedKeys(t.rows, t.cursors, batch);
    AdvancedCursors(t.cursors, batch, item);
    var known := Known(after.cursors, item);
    if known != Known(t.cursors, item) {
      var i :| 0 <= i < |batch| && batch[i].item == item && Fresh(t.cursors, batch[i]) && known == Some(batch[i].time);
      assert batch[i].At() in FreshKeys(t.cursors, batch);
    } else {
      forall k | k in after.rows && k.item == item ensures k in t.rows {
        assert forall i :: 0 <= i < |batch| && batch[i].item == item ==> !Fresh(t.cursors, batch[i]);
      }
    }
  }

  /** `replace_edges` leaves the edges that its batch does not name as they are. */
  lemma ReplaceElsewhere<V, C>(t: Table<V, C>, source: Source, batch: seq<Row<V, C>>, item: Item)
    requires forall row :: row in batch ==> row.item != item
    ensures var after := Step(t, ReplaceOp(source, batch));
            && (forall k: Key :: k.item == item ==>
                  (k in after.rows <==> k in t.rows) && (k in t.rows ==> after.rows[k] == t.rows[k]))
            && Known(after.cursors, item) == Known(t.cursors, item)
  {
    AdvancedCursors(t.cursors, batch, item);
    if Replaced(t, source, batch).Ok? {
      ReplacedRows(t, source, batch, item);
    }
  }

  /** Which rows of the batch are admitted. */
  lemma {:induction false} AdmittedElements<V, C>(t: Table<V, C>, batch: seq<Row<V, C>>)
    ensures forall row :: row in AdmittedRows(t, batch) <==> row in batch && Admitted(t, row)
  {
    if batch != [] {
      var n := |batch| - 1;
      AdmittedElements(t, batch[..n]);
      assert batch == batch[..n] + [batch[n]];
    }
  }

  ghost predicate HasKey<V, C>(batch: seq<Row<V, C>>, k: Key) {
    exists i :: 0 <= i < |batch| && batch[i].At() == k
  }

  /** The keys after plain insertion. */
  lemma {:induction false} AddedKeys<V, C>(rows: map<Key, Stored<V, C>>, batch: seq<Row<V, C>>)
    ensures forall k :: k in AddRows(rows, batch) <==> k in rows || HasKey(batch, k)
    ensures forall k :: k in rows && !HasKey(batch, k) ==> AddRows(rows, batch)[k] == rows[k]
  {
    if batch != [] {
      var n := |batch| - 1;
      AddedKeys(rows, batch[..n]);
      forall k ensures HasKey(batch, k) <==> HasKey(batch[..n], k) || batch[n].At() == k {
        if HasKey(batch, k) {
          var i :| 0 <= i < |batch| && batch[i].At() == k;
          assert i < n ==> batch[..n][i].At() == k;
        }
        if HasKey(batch[..n], k) {
          var i :| 0 <= i < n && batch[..n][i].At() == k;
          assert batch[i].At() == k;
        }
      }
    }
  }

  /** The batch has an admitted record of the item. */
  ghost predicate Refreshes<V, C>(t: Table<V, C>, batch: seq<Row<V, C>>, item: Item) {
    exists row :: row in batch && row.item == item && Admitted(t, row)
  }

  /** The batch has an admitted record with this key. */
  ghost predicate Admits<V, C>(t: Table<V, C>, batch: seq<Row<V, C>>, k: Key) {
    exists row :: row in batch && row.At() == k && Admitted(t, row)
  }

  lemma {:induction false} AdmittedKeysAndItems<V, C>(t: Table<V, C>, batch: seq<Row<V, C>>)
    ensures forall item :: item in ItemsOf(AdmittedRows(t, batch)) <==> Refreshes(t, batch, item)
    ensures forall k :: HasKey(AdmittedRows(t, batch), k) <==> Admits(t, batch, k)
  {
    var admitted := AdmittedRows(t, batch);
    AdmittedElements(t, batch);
    forall item ensures item in ItemsOf(admitted) <==> Refreshes(t, batch, item) {
      if item in ItemsOf(admitted) {
        var i :| 0 <= i < |admitted| && admitted[i].item == item;
        assert admitted[i] in admitted;
      }
      if Refreshes(t, batch, item) {
        var row :| row in batch && row.item == item && Admitted(t, row);
        var i :| 0 <= i < |admitted| && admitted[i] == row;
        assert admitted[i].item == item;
      }
    }
    forall k ensures HasKey(admitted, k) <==> Admits(t, batch, k) {
      if HasKey(admitted, k) {
        var i :| 0 <= i < |admitted| && admitted[i].At() == k;
        assert admitted[i] in admitted;
      }
      if Admits(t, batch, k) {
        var row :| row in batch && row.At() == k && Admitted(t, row);
        var i :| 0 <= i < |admitted| && admitted[i] == row;
        assert admitted[i].At() == k;
      }
    }
  }

  /** The rows of one item after a successful `replace_edges`: the admitted ones if there are any,
      and otherwise those it had. */
  lemma ReplacedRows<V, C>(t: Table<V, C>, source: Source, batch: seq<Row<V, C>>, item: Item)
    requires Replaced(t, source, batch).Ok?
    ensures var after := Replaced(t, source, batch).value;
            && (Refreshes(t, batch, item) ==>
                  forall k: Key :: k.item == item ==> (k in after.rows <==> Admits(t, batch, k)))
            && (!Refreshes(t, batch, item) ==>
                  forall k: Key :: k.item == item ==>
                    (k in after.rows <==> k in t.rows) && (k in t.rows ==> after.rows[k] == t.rows[k]))
  {
    var admitted := AdmittedRows(t, batch);
    AdmittedKeysAndItems(t, batch);
    AddedKeys(WithoutItems(t.rows, ItemsOf(admitted)), admitted);
    forall k: Key | Admits(t, batch, k) ensures Refreshes(t, batch, k.item) {
      var row :| row in batch && row.At() == k && Admitted(t, row);
    }
  }

  // ------------------------------------------------------------ what every step keeps

  /** Without a purge of the item, no step moves its cursor back. */
  lemma CursorNeverDecreases<V, C>(t: Table<V, C>, op: Op<V, C>, item: Item)
    requires Spares(t, op, item)
    ensures AtLeast(Known(Step(t, op).cursors, item), Known(t.cursors, item))
  {
    match op
    case SaveOp(batch) => AdvancedCursors(t.cursors, batch, item);
    case ReplaceOp(source, edges) => AdvancedCursors(t.cursors, edges, item);
    case PruneOp(_) =>
    case PurgeOp(hit) =>
  }

  /** A key that appears in a step was newer than its cursor, which is then at or past it. */
  lemma AppearingKeyIsFresh<V, C>(t: Table<V, C>, op: Op<V, C>, k: Key)
    requires k !in t.rows && k in Step(t, op).rows
    ensures !AtLeast(Known(t.cursors, k.item), Some(k.time))
    ensures AtLeast(Known(Step(t, op).cursors, k.item), Some(k.time))
  {
    match op
    case SaveOp(batch) =>
      InsertedKeys(t.rows, t.cursors, batch);
      AdvancedCursors(t.cursors, batch, k.item);
      var i :| 0 <= i < |batch| && Fresh(t.cursors, batch[i]) && batch[i].At() == k;
    case ReplaceOp(source, edges) =>
      ReplacedRows(t, source, edges, k.item);
      AdvancedCursors(t.cursors, edges, k.item);
      var row :| row in edges && row.At() == k && Admitted(t, row);
      var i :| 0 <= i < |edges| && edges[i] == row;
    case PruneOp(_) =>
    case PurgeOp(_) =>
  }

  lemma {:induction false} CursorNeverDecreasesInRun<V, C>(t: Table<V, C>, ops: seq<Op<V, C>>, item: Item)
    requires AllSpare(t, ops, item)
    ensures AtLeast(Known(Run(t, ops).cursors, item), Known(t.cursors, item))
  {
    if ops != [] {
      var n := |ops| - 1;
      CursorNeverDecreasesInRun(t, ops[..n], item);
      CursorNeverDecreases(Run(t, ops[..n]), ops[n], item);
    }
  }

  /** How often a key appears over a run: it is missing before an operation and there after it. */
  function Appearances<V, C>(t: Table<V, C>, ops: seq<Op<V, C>>, k: Key): nat {
    if ops == [] then 0
    else
      var n := |ops| - 1;
      Appearances(t, ops[..n], k) + (if k !in Run(t, ops[..n]).rows && k in Run(t, ops).rows then 1 else 0)
  }

  /** Each (source, id, time) key appears at most once ever, and never once its cursor is at or past its
      time, however saves, replacements, prunes and purges of other items alternate. */
  lemma {:induction false} AppearsAtMostOnce<V, C>(t: Table<V, C>, ops: seq<Op<V, C>>, k: Key)
    requires AllSpare(t, ops, k.item)
    ensures Appearances(t, ops, k) <= 1
    ensures AtLeast(Known(t.cursors, k.item), Some(k.time)) ==> Appearances(t, ops, k) == 0
    ensures Appearances(t, ops, k) > 0 ==> AtLeast(Known(Run(t, ops).cursors, k.item), Some(k.time))
  {
    if ops != [] {
      var n := |ops| - 1;
      var before := Run(t, ops[..n]);
      AppearsAtMostOnce(t, ops[..n], k);
      CursorNeverDecreasesInRun(t, ops[..n], k.item);
      CursorNeverDecreases(before, ops[n], k.item);
      if k !in before.rows && k in Run(t, ops).rows {
        AppearingKeyIsFresh(before, ops[n], k);
      }
    }
  }

  /** Saves, prunes and purges of other items: nothing replaces rows of the item. */
  predicate Appends<V, C>(t: Table<V, C>, op: Op<V, C>, item: Item) {
    Spares(t, op, item) && (op.ReplaceOp? ==> op.source != item.source)
  }

  predicate AllAppend<V, C>(t: Table<V, C>, ops: seq<Op<V, C>>, item: Item) {
    ops != [] ==>
      var front, last := ops[..|ops| - 1], ops[|ops| - 1];
      AllAppend(t, front, item) && Appends(Run(t, front), last, item)
  }

  lemma StepKeepsConsistent<V, C>(t: Table<V, C>, op: Op<V, C>, item: Item)
    requires Consistent(t, item) && Appends(t, op, item)
    ensures Consistent(Step(t, op), item)
  {
    match op
    case SaveOp(batch) => SaveKeepsConsistent(t, batch, item);
    case ReplaceOp(source, edges) =>
      if Replaced(t, source, edges).Ok? {
        forall row | row in edges ensures row.item != item {
          var i :| 0 <= i < |edges| && edges[i] == row;
        }
        ReplaceElsewhere(t, source, edges, item);
      }
    case PruneOp(_) =>
    case PurgeOp(_) =>
  }

  /** In every run from an empty table without a purge of the item or a replacement of its source:
      whenever rows of the item exist, the newest is at its cursor. */
  lemma {:induction false} NewestRowIsAtCursor<V, C>(ops: seq<Op<V, C>>, item: Item)
    requires AllAppend(Table(map[], map[]), ops, item)
    ensures Consistent(Run(Table(map[], map[]), ops), item)
  {
    if ops != [] {
      var n := |ops| - 1;
      NewestRowIsAtCursor(ops[..n], item);
      StepKeepsConsistent(Run(Table(map[], map[]), ops[..n]), ops[n], item);
    }
  }

  /** No row of the item is past its cursor. */
  ghost predicate UpToCursor<V, C>(t: Table<V, C>, item: Item) {
    forall k :: k in t.rows && k.item == item ==> AtLeast(Known(t.cursors, item), Some(k.time))
  }

  /** Every step that does not purge the item keeps its rows up to its cursor, replacements included. */
  lemma StepKeepsUpToCursor<V, C>(t: Table<V, C>, op: Op<V, C>, item: Item)
    requires UpToCursor(t, item) && Spares(t, op, item)
    ensures UpToCursor(Step(t, op), item)
  {
    var after := Step(t, op);
    CursorNeverDecreases(t, op, item);
    forall k | k in after.rows && k.item == item ensures AtLeast(Known(after.cursors, item), Some(k.time)) {
      if k !in t.rows {
        AppearingKeyIsFresh(t, op, k);
      }
    }
  }

  /** In every run from an empty table without a purge of the item, however its source is written, no row
      of the item is past its cursor. */
  lemma {:induction false} RowsStayUpToCursor<V, C>(ops: seq<Op<V, C>>, item: Item)
    requires AllSpare(Table(map[], map[]), ops, item)
    ensures UpToCursor(Run(Table(map[], map[]), ops), item)
  {
    if ops != [] {
      var n := |ops| - 1;
      RowsStayUpToCursor(ops[..n], item);
      StepKeepsUpToCursor(Run(Table(map[], map[]), ops[..n]), ops[n], item);
    }
  }

  /** The count `save` returns: the distinct keys of the batch strictly newer than the cursors. */
  lemma SaveCountsFreshKeys<V, C>(t: Table<V, C>, batch: seq<Row<V, C>>)
    requires forall i :: 0 <= i < |batch| ==> UpToCursor(t, batch[i].item)
    ensures |Saved(t, batch).rows| - |t.rows| == |FreshKeys(t.cursors, batch)|
  {
    InsertedKeys(t.rows, t.cursors, batch);
    forall k | k in FreshKeys(t.cursors, batch) ensures k !in t.rows {
      var i :| 0 <= i < |batch| && Fresh(t.cursors, batch[i]) && batch[i].At() == k;
      assert UpToCursor(t, batch[i].item);
    }
    assert |Saved(t, batch).rows| == |Saved(t, batch).rows.Keys|;
  }

  /** Expired snapshots never come back as new data: after a batch is saved, and after any run that
      does not purge its items, saving rows no newer than it changes nothing at all. */
  lemma {:induction false} StaleSnapshotIsIgnored<V, C>(t: Table<V, C>, batch: seq<Row<V, C>>, ops: seq<Op<V, C>>,
                                                        stale: seq<Row<V, C>>)
    requires forall i :: 0 <= i < |stale| ==>
               AllSpare(Saved(t, batch), ops, stale[i].item)
               && exists j :: 0 <= j < |batch| && batch[j].item == stale[i].item && batch[j].time >= stale[i].time
    ensures var later := Run(Saved(t, batch), ops); Saved(later, stale) == later
  {
    var later := Run(Saved(t, batch), ops);
    forall i | 0 <= i < |stale| ensures !Fresh(later.cursors, stale[i]) {
      var j :| 0 <= j < |batch| && batch[j].item == stale[i].item && batch[j].time >= stale[i].time;
      AdvancedCursors(t.cursors, batch, stale[i].item);
      CursorNeverDecreasesInRun(Saved(t, batch), ops, stale[i].item);
    }
    NothingFresh(later, stale);
  }

  // ------------------------------------------------------------ a source of whole snapshots

  predicate OneRecordPerItem<V, C>(batch: seq<Row<V, C>>) {
    forall i, j :: 0 <= i < j < |batch| ==> batch[i].item != batch[j].item
  }

  /** With one record per edge id the plain INSERT never meets its UNIQUE key. */
  lemma SnapshotNeverFails<V, C>(t: Table<V, C>, source: Source, batch: seq<Row<V, C>>)
    requires OneRecordPerItem(batch)
    requires forall i :: 0 <= i < |batch| ==> batch[i].item.source == source
    ensures Replaced(t, source, batch).Ok?
  {
    AdmittedDistinct(t, batch);
    var admitted := AdmittedRows(t, batch);
    forall i, j | 0 <= i < j < |admitted| ensures admitted[i].At() != admitted[j].At() {
      assert admitted[i].item != admitted[j].item;
    }
  }

  lemma {:induction false} AdmittedIsListed<V, C>(t: Table<V, C>, batch: seq<Row<V, C>>, i: nat)
    requires i < |AdmittedRows(t, batch)|
    ensures AdmittedRows(t, batch)[i] in batch
  {
    if batch != [] {
      var n := |batch| - 1;
      if i < |AdmittedRows(t, batch[..n])| {
        AdmittedIsListed(t, batch[..n], i);
      }
    }
  }

  lemma {:induction false} AdmittedDistinct<V, C>(t: Table<V, C>, batch: seq<Row<V, C>>)
    requires OneRecordPerItem(batch)
    ensures OneRecordPerItem(AdmittedRows(t, batch))
  {
    if batch != [] {
      var n := |batch| - 1;
      AdmittedDistinct(t, batch[..n]);
      var front := AdmittedRows(t, batch[..n]);
      forall i | 0 <= i < |front| ensures front[i].item != batch[n].item {
        AdmittedIsListed(t, batch[..n], i);
        var j :| 0 <= j < n && batch[..n][j] == front[i];
        assert batch[j].item != batch[n].item;
      }
    }
  }

  /** At most one row of the item, at its cursor. */
  ghost predicate Single<V, C>(t: Table<V, C>, item: Item) {
    && Consistent(t, item)
    && forall k, k' :: k in t.rows && k' in t.rows && k.item == k'.item == item ==> k == k'
  }

  /** The item's source is written by whole snapshots only, with one record per edge id. */
  predicate SnapshotOnly<V, C>(t: Table<V, C>, op: Op<V, C>, item: Item) {
    && Spares(t, op, item)
    && (op.SaveOp? ==> forall i :: 0 <= i < |op.batch| ==> op.batch[i].item.source != item.source)
    && (op.ReplaceOp? ==> OneRecordPerItem(op.edges))
  }

  predicate AllSnapshots<V, C>(t: Table<V, C>, ops: seq<Op<V, C>>, item: Item) {
    ops != [] ==>
      var front, last := ops[..|ops| - 1], ops[|ops| - 1];
      AllSnapshots(t, front, item) && SnapshotOnly(Run(t, front), last, item)
  }

  lemma OnlyRecord<V, C>(edges: seq<Row<V, C>>, i: nat)
    requires OneRecordPerItem(edges) && i < |edges|
    ensures forall row :: row in edges && row.item == edges[i].item ==> row == edges[i]
  {
  }

  lemma SnapshotKeepsSingle<V, C>(t: Table<V, C>, source: Source, edges: seq<Row<V, C>>, item: Item)
    requires Single(t, item) && OneRecordPerItem(edges)
    requires Replaced(t, source, edges).Ok?
    ensures Single(Replaced(t, source, edges).value, item)
  {
    var after := Replaced(t, source, edges).value;
    ReplacedRows(t, source, edges, item);
    AdvancedCursors(t.cursors, edges, item);
    if i :| 0 <= i < |edges| && edges[i].item == item {
      assert edges[i] in edges;
      if Admitted(t, edges[i]) {
        assert Known(after.cursors, item) == Some(edges[i].time);
        assert Refreshes(t, edges, item) && Admits(t, edges, edges[i].At());
        OnlyRecord(edges, i);
      } else {
        OnlyRecord(edges, i);
        assert !Refreshes(t, edges, item);
      }
    } else {
      assert forall row :: row in edges ==> row.item != item;
    }
  }

  lemma StepKeepsSingle<V, C>(t: Table<V, C>, op: Op<V, C>, item: Item)
    requires Single(t, item) && SnapshotOnly(t, op, item)
    ensures Single(Step(t, op), item)
  {
    match op
    case SaveOp(batch) =>
      InsertedKeys(t.rows, t.cursors, batch);
      SaveKeepsConsistent(t, batch, item);
    case ReplaceOp(source, edges) =>
      if Replaced(t, source, edges).Ok? {
        SnapshotKeepsSingle(t, source, edges, item);
      }
    case PruneOp(_) =>
    case PurgeOp(_) =>
  }

  /** Every state reached from an empty table by snapshots of the source, prunes and purges of other
      items has at most one row per edge, and its time is the cursor's. */
  lemma {:induction false} SnapshotsKeepOneRow<V, C>(ops: seq<Op<V, C>>, item: Item)
    requires AllSnapshots(Table(map[], map[]), ops, item)
    ensures Single(Run(Table(map[], map[]), ops), item)
  {
    if ops != [] {
      var n := |ops| - 1;
      SnapshotsKeepOneRow(ops[..n], item);
      StepKeepsSingle(Run(Table(map[], map[]), ops[..n]), ops[n], item);
    }
  }

  /** The snapshot names the edge. */
  ghost predicate Names<V, C>(edges: seq<Row<V, C>>, item: Item) {
    exists row :: row in edges && row.item == item
  }

  /** What one snapshot does to one edge: an absent edge keeps its row as it is; a named edge keeps
      having a row and never moves back in time; and an edge without a row gets one only from a record
      newer than anything known of it, so no stale snapshot revives a pruned edge. */
  lemma SnapshotEffect<V, C>(t: Table<V, C>, source: Source, edges: seq<Row<V, C>>, item: Item)
    requires Single(t, item) && OneRecordPerItem(edges)
    requires forall i :: 0 <= i < |edges| ==> edges[i].item.source == source
    ensures var after := Step(t, ReplaceOp(source, edges));
            && (!Names(edges, item) ==>
                  forall k: Key :: k.item == item ==>
                    (k in after.rows <==> k in t.rows) && (k in t.rows ==> after.rows[k] == t.rows[k]))
            && (forall k: Key :: k in t.rows && k.item == item ==>
                  exists k' :: k' in after.rows && k'.item == item && k.time <= k'.time)
            && (forall k: Key ::
                  k in after.rows && k.item == item && k !in t.rows ==> !AtLeast(Known(t.cursors, item), Some(k.time)))
  {
    var after := Step(t, ReplaceOp(source, edges));
    SnapshotNeverFails(t, source, edges);
    SnapshotKeepsSingle(t, source, edges, item);
    CursorNeverDecreases(t, ReplaceOp(source, edges), item);
    ReplacedRows(t, source, edges, item);
    if !Names(edges, item) {
      ReplaceElsewhere(t, source, edges, item);
    }
    forall k | k in t.rows && k.item == item
      ensures exists k' :: k' in after.rows && k'.item == item && k.time <= k'.time
    {
      if Refreshes(t, edges, item) {
        var row :| row in edges && row.item == item && Admitted(t, row);
        assert Admits(t, edges, row.At());
        assert row.At() in after.rows;
      } else {
        assert k in after.rows;
      }
    }
    forall k | k in after.rows && k.item == item && k !in t.rows
      ensures !AtLeast(Known(t.cursors, item), Some(k.time))
    {
      AppearingKeyIsFresh(t, ReplaceOp(source, edges), k);
    }
  }

  // ------------------------------------------------------------ mixing the two ways of writing

  /** The batch has an admitted record of the item at least as new as its cursor. */
  ghost predicate Reaches<V, C>(t: Table<V, C>, edges: seq<Row<V, C>>, item: Item) {
    exists row ::
      row in edges && row.item == item && Admitted(t, row) && AtLeast(Some(row.time), Known(t.cursors, item))
  }

  /** Exactly when `replace_edges` leaves the newest row at the cursor, for any table and any batch: it
      admits a record of the edge at least as new as the cursor; or it admits none, and it was there. */
  lemma ReplaceKeepsConsistentIff<V, C>(t: Table<V, C>, source: Source, edges: seq<Row<V, C>>, item: Item)
    requires Replaced(t, source, edges).Ok?
    ensures Consistent(Replaced(t, source, edges).value, item)
       <==> if Refreshes(t, edges, item) then Reaches(t, edges, item) else Consistent(t, item)
  {
    ReplacedRows(t, source, edges, item);
    AdvancedCursors(t.cursors, edges, item);
    if Refreshes(t, edges, item) {
      if Reaches(t, edges, item) {
        ReachingMakesConsistent(t, source, edges, item);
      } else {
        NotReachingLosesNewest(t, source, edges, item);
      }
    } else if Known(AdvanceAll(t.cursors, edges), item) != Known(t.cursors, item) {
      var i :| 0 <= i < |edges| && edges[i].item == item && Fresh(t.cursors, edges[i]);
      assert edges[i] in edges && Admitted(t, edges[i]);
    }
  }

  /** Some row of the item was newer than all of its rows afterwards. */
  ghost predicate MovesBack<V, C>(t: Table<V, C>, after: Table<V, C>, item: Item) {
    exists k :: k in t.rows && k.item == item && forall k' :: k' in after.rows && k'.item == item ==> k'.time < k.time
  }

  /** Exactly when `replace_edges` moves an edge back, for any table and any batch: it admits records of
      the edge, all of them older than some stored row. */
  lemma ReplaceMovesBackIff<V, C>(t: Table<V, C>, source: Source, edges: seq<Row<V, C>>, item: Item)
    requires Replaced(t, source, edges).Ok?
    ensures MovesBack(t, Replaced(t, source, edges).value, item)
       <==> && Refreshes(t, edges, item)
            && exists k :: k in t.rows && k.item == item && OlderRecords(t, edges, k)
  {
    var after := Replaced(t, source, edges).value;
    ReplacedRows(t, source, edges, item);
    if Refreshes(t, edges, item) {
      forall k | k in t.rows && k.item == item
        ensures OlderRecords(t, edges, k) <==> forall k' :: k' in after.rows && k'.item == item ==> k'.time < k.time
      {
        if forall k' :: k' in after.rows && k'.item == item ==> k'.time < k.time {
          forall row | row in edges && row.item == item && Admitted(t, row) ensures row.time < k.time {
            assert Admits(t, edges, row.At()) && row.At() in after.rows;
          }
        }
      }
    }
  }

  /** Every admitted record of the item is older than this row. */
  ghost predicate OlderRecords<V, C>(t: Table<V, C>, edges: seq<Row<V, C>>, k: Key) {
    forall row :: row in edges && row.item == k.item && Admitted(t, row) ==> row.time < k.time
  }

  lemma AdmittedUpToCursor<V, C>(t: Table<V, C>, source: Source, edges: seq<Row<V, C>>, item: Item)
    requires Replaced(t, source, edges).Ok? && Refreshes(t, edges, item)
    ensures var after := Replaced(t, source, edges).value;
            forall k :: k in after.rows && k.item == item ==> AtLeast(Known(after.cursors, item), Some(k.time))
  {
    var after := Replaced(t, source, edges).value;
    ReplacedRows(t, source, edges, item);
    AdvancedCursors(t.cursors, edges, item);
    forall k | k in after.rows && k.item == item ensures AtLeast(Known(after.cursors, item), Some(k.time)) {
      var row :| row in edges && row.At() == k && Admitted(t, row);
      var i :| 0 <= i < |edges| && edges[i] == row;
    }
  }

  lemma ReachingMakesConsistent<V, C>(t: Table<V, C>, source: Source, edges: seq<Row<V, C>>, item: Item)
    requires Replaced(t, source, edges).Ok? && Reaches(t, edges, item)
    ensures Consistent(Replaced(t, source, edges).value, item)
  {
    AdmittedUpToCursor(t, source, edges, item);
    NewestIsAdmitted(t, source, edges, item);
  }

  lemma NewestIsAdmitted<V, C>(t: Table<V, C>, source: Source, edges: seq<Row<V, C>>, item: Item)
    requires Replaced(t, source, edges).Ok? && Reaches(t, edges, item)
    ensures var after := Replaced(t, source, edges).value;
            item in after.cursors && Key(item, after.cursors[item].time) in after.rows
  {
    var after := Replaced(t, source, edges).value;
    ReplacedRows(t, source, edges, item);
    AdvancedCursors(t.cursors, edges, item);
    var row :| row in edges && row.item == item && Admitted(t, row) && AtLeast(Some(row.time), Known(t.cursors, item));
    var known := Known(after.cursors, item);
    var i :| 0 <= i < |edges| && edges[i] == row;
    assert Admits(t, edges, row.At());
    if known == Known(t.cursors, item) {
      assert known == Some(row.time);
    } else {
      var j :| 0 <= j < |edges| && edges[j].item == item && Fresh(t.cursors, edges[j]) && known == Some(edges[j].time);
      assert edges[j] in edges && Admits(t, edges, edges[j].At());
    }
  }

  lemma NotReachingLosesNewest<V, C>(t: Table<V, C>, source: Source, edges: seq<Row<V, C>>, item: Item)
    requires Replaced(t, source, edges).Ok? && Refreshes(t, edges, item) && !Reaches(t, edges, item)
    ensures !Consistent(Replaced(t, source, edges).value, item)
  {
    var after := Replaced(t, source, edges).value;
    ReplacedRows(t, source, edges, item);
    AdvancedCursors(t.cursors, edges, item);
    var row :| row in edges && row.item == item && Admitted(t, row);
    assert Admits(t, edges, row.At()) && row.At() in after.rows;
    var k := Key(item, Known(after.cursors, item).value);
    assert forall other :: other in edges && other.item == item && Admitted(t, other) ==>
             !AtLeast(Some(other.time), Known(t.cursors, item));
    assert !Admits(t, edges, k);
  }

  // ------------------------------------------------------------ what the rows and cursors hold

  /** The record's exact key is stored, or the record is newer than anything known of its edge. */
  predicate IsAdmitted<V, C>(t: Table<V, C>, row: Row<V, C>) {
    || Key(row.item, row.time) in t.rows
    || row.item !in t.cursors
    || row.time > t.cursors[row.item].time
  }

  lemma {:induction false} AddedHold<V, C>(rows: map<Key, Stored<V, C>>, batch: seq<Row<V, C>>, i: nat)
    requires UniqueKeys(batch) && i < |batch|
    ensures batch[i].At() in AddRows(rows, batch)
    ensures AddRows(rows, batch)[batch[i].At()] == Stored(batch[i].value, batch[i].info)
  {
    var n := |batch| - 1;
    if i < n {
      AddedHold(rows, batch[..n], i);
      assert batch[i].At() != batch[n].At();
    }
  }

  /** After a replacement: each admitted record's key holds that record's value and columns; rows of edges of
      which no record was admitted are as they were; there is nothing else.  It fails only for a record of another
      source, or for two admitted records with one key. */
  lemma {:induction false} ReplacedHolds<V, C>(t: Table<V, C>, source: Source, batch: seq<Row<V, C>>)
    ensures Replaced(t, source, batch) == Err(WrongSource) <==> exists row :: row in batch && row.item.source != source
    ensures Replaced(t, source, batch) == Err(UniqueViolation) ==>
              exists i, j :: && 0 <= i < j < |AdmittedRows(t, batch)|
                             && AdmittedRows(t, batch)[i].item == AdmittedRows(t, batch)[j].item
                             && AdmittedRows(t, batch)[i].time == AdmittedRows(t, batch)[j].time
    ensures Replaced(t, source, batch).Ok? ==>
              var after := Replaced(t, source, batch).value;
              && (forall row :: row in batch && IsAdmitted(t, row) ==>
                    && Key(row.item, row.time) in after.rows
                    && after.rows[Key(row.item, row.time)] == Stored(row.value, row.info))
              && (forall k ::
                    k in t.rows && !(exists row :: row in batch && row.item == k.item && IsAdmitted(t, row)) ==>
                    k in after.rows && after.rows[k] == t.rows[k])
              && (forall k :: k in after.rows ==>
                    || (exists row :: row in batch && IsAdmitted(t, row) && Key(row.item, row.time) == k)
                    || (k in t.rows && !(exists row :: row in batch && row.item == k.item && IsAdmitted(t, row))))
  {
    assert forall row :: Admitted(t, row) <==> IsAdmitted(t, row);
    WrongSourceIff(t, source, batch);
    if Replaced(t, source, batch).Ok? {
      var after := Replaced(t, source, batch).value;
      var admitted := AdmittedRows(t, batch);
      AdmittedElements(t, batch);
      forall row | row in batch && IsAdmitted(t, row)
        ensures row.At() in after.rows && after.rows[row.At()] == Stored(row.value, row.info)
      {
        var i :| 0 <= i < |admitted| && admitted[i] == row;
        AddedHold(WithoutItems(t.rows, ItemsOf(admitted)), admitted, i);
      }
      forall k | k in t.rows && !(exists row :: row in batch && row.item == k.item && IsAdmitted(t, row))
        ensures k in after.rows && after.rows[k] == t.rows[k]
      {
        ReplacedRows(t, source, batch, k.item);
      }
      forall k | k in after.rows
        ensures || (exists row :: row in batch && IsAdmitted(t, row) && Key(row.item, row.time) == k)
                || (k in t.rows && !(exists row :: row in batch && row.item == k.item && IsAdmitted(t, row)))
      {
        ReplacedRows(t, source, batch, k.item);
      }
    }
  }

  /** Where the admitted records are in the batch. */
  function AdmittedIndexes<V, C>(t: Table<V, C>, batch: seq<Row<V, C>>): set<nat> {
    set i: nat | i < |batch| && IsAdmitted(t, batch[i])
  }

  /** `replace_edges` counts the admitted records. */
  lemma {:induction false} AdmittedCount<V, C>(t: Table<V, C>, batch: seq<Row<V, C>>)
    ensures |AdmittedRows(t, batch)| == |AdmittedIndexes(t, batch)|
  {
    if batch == [] {
      assert AdmittedIndexes(t, batch) == {};
    } else {
      var n: nat := |batch| - 1;
      AdmittedCount(t, batch[..n]);
      assert AdmittedIndexes(t, batch) == AdmittedIndexes(t, batch[..n]) + if IsAdmitted(t, batch[n]) then {n} else {};
    }
  }

  lemma WrongSourceIff<V, C>(t: Table<V, C>, source: Source, batch: seq<Row<V, C>>)
    ensures Replaced(t, source, batch) == Err(WrongSource) <==> exists row :: row in batch && row.item.source != source
  {
    if i: nat :| i < |batch| && batch[i].item.source != source {
      assert batch[i] in batch;
    }
  }

  /** The first record of the batch with its key. */
  predicate IsFirstOfKey<V, C>(batch: seq<Row<V, C>>, i: int) {
    && 0 <= i < |batch|
    && forall j :: 0 <= j < i ==> batch[j].item != batch[i].item || batch[j].time != batch[i].time
  }

  /** After a save: stored rows are as they were, and each key that was absent holds the first record of the batch
      with that key, if that is newer than the cursor was; there is nothing else. */
  lemma {:induction false} SavedHolds<V, C>(t: Table<V, C>, batch: seq<Row<V, C>>)
    ensures var after := Saved(t, batch);
            && (forall k :: k in t.rows ==> k in after.rows && after.rows[k] == t.rows[k])
            && (forall i :: IsFirstOfKey(batch, i) && Key(batch[i].item, batch[i].time) !in t.rows
                            && (batch[i].item in t.cursors ==> batch[i].time > t.cursors[batch[i].item].time) ==>
                  && Key(batch[i].item, batch[i].time) in after.rows
                  && after.rows[Key(batch[i].item, batch[i].time)] == Stored(batch[i].value, batch[i].info))
            && (forall k :: k in after.rows && k !in t.rows ==>
                  exists i :: && 0 <= i < |batch| && Key(batch[i].item, batch[i].time) == k
                              && (k.item in t.cursors ==> k.time > t.cursors[k.item].time))
  {
    InsertedKeys(t.rows, t.cursors, batch);
    forall i | IsFirstOfKey(batch, i) && batch[i].At() !in t.rows && Fresh(t.cursors, batch[i])
      ensures batch[i].At() in Saved(t, batch).rows
      ensures Saved(t, batch).rows[batch[i].At()] == Stored(batch[i].value, batch[i].info)
    {
      FirstIsStored(t, batch, i);
    }
  }

  lemma {:induction false} FirstIsStored<V, C>(t: Table<V, C>, batch: seq<Row<V, C>>, i: nat)
    requires IsFirstOfKey(batch, i) && batch[i].At() !in t.rows && Fresh(t.cursors, batch[i])
    ensures batch[i].At() in InsertRows(t.rows, t.cursors, batch)
    ensures InsertRows(t.rows, t.cursors, batch)[batch[i].At()] == Stored(batch[i].value, batch[i].info)
  {
    var n := |batch| - 1;
    if i < n {
      FirstIsStored(t, batch[..n], i);
    } else {
      InsertedKeys(t.rows, t.cursors, batch[..n]);
      forall j: nat | j < n ensures batch[..n][j].At() != batch[n].At() {
      }
    }
  }

  /** The cursor of an item is as it was, if no record of it is newer; else it has the time and the columns of a
      newest record. */
  ghost predicate AdvancedBy<V, C>(cursors: map<Item, Cursor<C>>, batch: seq<Row<V, C>>, after: map<Item, Cursor<C>>,
                                    item: Item)
  {
    && ((forall row :: row in batch && row.item == item ==> item in cursors && row.time <= cursors[item].time) ==>
          (item in after <==> item in cursors) && (item in cursors ==> after[item] == cursors[item]))
    && ((exists row :: row in batch && row.item == item && (item in cursors ==> row.time > cursors[item].time)) ==>
          && item in after
          && (exists row :: row in batch && row.item == item && after[item] == Cursor(row.time, row.info))
          && forall row :: row in batch && row.item == item ==> row.time <= after[item].time)
  }

  lemma {:induction false} AdvancedHold<V, C>(cursors: map<Item, Cursor<C>>, batch: seq<Row<V, C>>, item: Item)
    ensures AdvancedBy(cursors, batch, AdvanceAll(cursors, batch), item)
  {
    if batch != [] {
      var n := |batch| - 1;
      AdvancedHold(cursors, batch[..n], item);
      assert batch == batch[..n] + [batch[n]];
      AdvancedStep(cursors, batch[..n], batch[n], item);
    }
  }

  lemma {:induction false} AdvancedStep<V, C>(cursors: map<Item, Cursor<C>>, front: seq<Row<V, C>>, last: Row<V, C>,
                                              item: Item)
    requires AdvancedBy(cursors, front, AdvanceAll(cursors, front), item)
    ensures AdvancedBy(cursors, front + [last], Advance(AdvanceAll(cursors, front), last), item)
  {
    var before, batch := AdvanceAll(cursors, front), front + [last];
    forall row ensures row in batch <==> row in front || row == last {}
    if last.item == item {
      assert last in batch;
    }
  }

  /** Saving two rows of an item, the older first. */
  lemma TwoSaved<V, C>(older: Row<V, C>, newer: Row<V, C>)
    requires older.item == newer.item && older.time < newer.time
    ensures Saved(Table(map[], map[]), [older, newer])
         == Table(map[older.At() := Stored(older.value, older.info), newer.At() := Stored(newer.value, newer.info)],
                  map[newer.item := Cursor(newer.time, newer.info)])
  {
    var empty: Table<V, C> := Table(map[], map[]);
    assert [older, newer][..1] == [older];
    assert InsertRows(empty.rows, empty.cursors, [older]) == map[older.At() := Stored(older.value, older.info)];
    assert AdvanceAll(empty.cursors, [older]) == map[older.item := Cursor(older.time, older.info)];
  }

  /** Replacing both by the older. */
  lemma OlderReplaced<V, C>(t: Table<V, C>, older: Row<V, C>, newer: Row<V, C>)
    requires older.item == newer.item && older.time < newer.time
    requires t.rows.Keys == {older.At(), newer.At()}
    requires older.item in t.cursors && t.cursors[older.item].time == newer.time
    ensures Replaced(t, older.item.source, [older])
         == Ok(Table(map[older.At() := Stored(older.value, older.info)], t.cursors))
  {
    assert [older][..0] == [];
    assert AdmittedRows(t, [older]) == [older];
    assert ItemsOf([older]) == {older.item} by { assert [older][0].item == older.item; }
    assert WithoutItems(t.rows, {older.item}) == map[];
    assert UniqueKeys([older]);
    assert AddRows(WithoutItems(t.rows, {older.item}), [older]) == map[older.At() := Stored(older.value, older.info)];
    assert AdvanceAll(t.cursors, [older]) == t.cursors;
  }

  lemma OlderRowLeft<V, C>(t: Table<V, C>, after: Table<V, C>, newer: Key, older: Key)
    requires newer in t.rows && after.rows.Keys == {older} && older.time < newer.time
    ensures MovesBack(t, after, newer.item)
  {
    assert forall k :: k in after.rows ==> k == older;
  }

  /** Where it moves back: an edge saved twice by `save_edges` and then named by a snapshot of its older
      row loses the newer one, although its cursor stays at the newer time. */
  lemma ReplaceCanMoveBack<V, C>(older: Row<V, C>, newer: Row<V, C>)
    requires older.item == newer.item && older.time < newer.time
    ensures var t := Saved(Table(map[], map[]), [older, newer]);
            var after := Step(t, ReplaceOp(older.item.source, [older]));
            && newer.At() in t.rows && after.rows.Keys == {older.At()}
            && Known(after.cursors, newer.item) == Some(newer.time)
            && MovesBack(t, after, newer.item)
  {
    var t := Saved(Table(map[], map[]), [older, newer]);
    TwoSaved(older, newer);
    OlderReplaced(t, older, newer);
    OlderRowLeft(t, Replaced(t, older.item.source, [older]).value, newer.At(), older.At());
  }
}
