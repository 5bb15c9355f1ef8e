/** `purge_node` (`storage.py`): which rows and cursors are a node's, and what forgetting it leaves. */
module NodePurge {
  import opened Basics
  import opened Texts
  import opened ObservationTables
  import opened Identifiers
  import Consolidation

  /** canonical_id = ? */
  function OfNode(id: NodeId): (Item, ()) -> bool {
    (item: Item, info: ()) => item.id == id.Text()
  }

  predicate TouchedBy(e: Ends, id: NodeId) {
    e.network == id.network && (e.from == id.sourceId || e.to == id.sourceId)
  }

  /** network = ? AND (from_source_id = ? OR to_source_id = ?) */
  function Touching(id: NodeId): (Item, Ends) -> bool {
    (item: Item, info: Ends) => TouchedBy(info, id)
  }

  // ------------------------------------------------------------ the store

  /** A row of neighbor_observations, which are all of Meshtastic nodes. */
  datatype Neighbor = Neighbor(source: Source, from: string, to: string, observedAt: int, snr: real) {
    function Pair(): Ends { Ends(Consolidation.Meshtastic, from, to) }
  }

  /** A row of observer_receptions, which are all of MeshCore nodes. */
  datatype Reception = Reception(node: string, observer: string, packetHash: string, observedAt: int,
                                 snr: Option<real>, pathLength: Option<nat>) {
    function Pair(): Ends { Ends(Consolidation.MeshCore, node, observer) }
  }

  datatype Contents<V, W> = Contents(nodes: Table<V, ()>, edges: Table<W, Ends>,
                                     neighbors: set<Neighbor>, receptions: set<Reception>)

  /** Nothing that names the node is left, and everything else is as it was. */
  ghost predicate Forgets<V, W>(before: Contents<V, W>, after: Contents<V, W>, id: NodeId) {
    && after.nodes == Purged(before.nodes, OfNode(id))
    && after.edges == Purged(before.edges, Touching(id))
    && (forall n :: n in after.neighbors <==> n in before.neighbors && !TouchedBy(n.Pair(), id))
    && (forall r :: r in after.receptions <==> r in before.receptions && !TouchedBy(r.Pair(), id))
  }

  /** Which rows and cursors that are, in plain terms. */
  lemma ForgetsByColumns<V, W>(before: Contents<V, W>, after: Contents<V, W>, id: NodeId)
    requires Forgets(before, after, id)
    ensures forall k :: k in after.nodes.rows <==> k in before.nodes.rows && k.item.id != id.Text()
    ensures forall i :: i in after.nodes.cursors <==> i in before.nodes.cursors && i.id != id.Text()
    ensures forall k :: k in after.edges.rows <==> k in before.edges.rows && !Names(before.edges.rows[k].info, id)
    ensures forall i :: i in after.edges.cursors
                   <==> i in before.edges.cursors && !Names(before.edges.cursors[i].info, id)
    ensures forall k :: k in after.nodes.rows ==> after.nodes.rows[k] == before.nodes.rows[k]
    ensures forall i :: i in after.nodes.cursors ==> after.nodes.cursors[i] == before.nodes.cursors[i]
    ensures forall k :: k in after.edges.rows ==> after.edges.rows[k] == before.edges.rows[k]
    ensures forall i :: i in after.edges.cursors ==> after.edges.cursors[i] == before.edges.cursors[i]
    ensures forall n :: n in after.neighbors <==>
              n in before.neighbors && !(id.network.Meshtastic? && id.sourceId in [n.from, n.to])
    ensures forall r :: r in after.receptions <==>
              r in before.receptions && !(id.network.MeshCore? && id.sourceId in [r.node, r.observer])
  {
  }

  /** One of the ends is the node. */
  predicate Names(e: Ends, id: NodeId) {
    e.network == id.network && id.sourceId in [e.from, e.to]
  }

  datatype PurgeResult = PurgeResult(nodeRows: nat, edgeRows: nat)

  class ObservationStore<V, W> {
    const nodes: ObservationTable<V, ()>
    const edges: ObservationTable<W, Ends>
    var neighbors: set<Neighbor>
    var receptions: set<Reception>

    ghost predicate Valid() {
      (nodes as object) != (edges as object)
    }

    ghost function State(): Contents<V, W>
      reads this, nodes, edges
    {
      Contents(nodes.State(), edges.State(), neighbors, receptions)
    }

    constructor ()
      ensures Valid() && fresh(nodes) && fresh(edges)
      ensures State() == Contents(Table(map[], map[]), Table(map[], map[]), {}, {})
    {
      nodes := new ObservationTable();
      edges := new ObservationTable();
      neighbors, receptions := {}, {};
    }

    /** `purge_node`: refused for a text that is no canonical id, which changes nothing. */
    method PurgeNode(text: string) returns (r: Result<PurgeResult, IdError>)
      requires Valid()
      modifies this, nodes, edges
      ensures match ParseNodeId(text)
              case Err(e) => r == Err(e) && State() == old(State())
              case Ok(id) =>
                && Forgets(old(State()), State(), id)
                && r.Ok?
                && r.value.nodeRows == |old(nodes.rows)| - |nodes.rows|
                && r.value.edgeRows == |old(edges.rows)| - |edges.rows|
    {
      var id := ParseNodeId(text);
      if id.Err? {
        return Err(id.error);
      }
      var deleted := DeleteNode(id.value);
      return Ok(deleted);
    }

    /** The deletions. */
    method DeleteNode(id: NodeId) returns (deleted: PurgeResult)
      requires Valid()
      modifies this, nodes, edges
      ensures Forgets(old(State()), State(), id)
      ensures deleted.nodeRows == |old(nodes.rows)| - |nodes.rows|
      ensures deleted.edgeRows == |old(edges.rows)| - |edges.rows|
    {
      if id.network == Consolidation.MeshCore {
        receptions := set r | r in receptions && r.node != id.sourceId && r.observer != id.sourceId;
      }
      if id.network == Consolidation.Meshtastic {
        neighbors := set n | n in neighbors && n.from != id.sourceId && n.to != id.sourceId;
      }
      var edgeRows := edges.Purge(Touching(id));
      var nodeRows := nodes.Purge(OfNode(id));
      return PurgeResult(nodeRows, edgeRows);
    }
  }

  // ------------------------------------------------------------ the node table

  /** Neither a row nor a cursor is left of the item. */
  predicate Forgotten<V, C>(t: Table<V, C>, item: Item) {
    item !in t.cursors && forall k :: k in t.rows ==> k.item != item
  }

  /** Over any run, purges of other nodes spare a node's id in every source; a purge of the node forgets it. */
  lemma {:induction false} NodePurgesSpareOthers<V>(t: Table<V, ()>, ops: seq<Op<V, ()>>, item: Item)
    requires forall i :: 0 <= i < |ops| && ops[i].PurgeOp? ==>
               exists id :: ops[i].hit == OfNode(id) && id.Text() != item.id
    ensures AllSpare(t, ops, item)
    ensures forall id: NodeId :: id.Text() == item.id ==> Forgotten(Purged(Run(t, ops), OfNode(id)), item)
  {
    if ops != [] {
      NodePurgesSpareOthers(t, ops[..|ops| - 1], item);
    }
  }

  // ------------------------------------------------------------ what rows and cursors keep of their records

  /** Every row and every cursor has the property. */
  ghost predicate Described<V, C>(t: Table<V, C>, p: (Item, C) -> bool) {
    && (forall k :: k in t.rows ==> p(k.item, t.rows[k].info))
    && (forall i :: i in t.cursors ==> p(i, t.cursors[i].info))
  }

  predicate AllDescribed<V, C>(batch: seq<Row<V, C>>, p: (Item, C) -> bool) {
    forall i :: 0 <= i < |batch| ==> p(batch[i].item, batch[i].info)
  }

  /** Every record that the operation brings has the property. */
  predicate Brings<V, C>(op: Op<V, C>, p: (Item, C) -> bool) {
    match op
    case SaveOp(batch) => AllDescribed(batch, p)
    case ReplaceOp(_, edges) => AllDescribed(edges, p)
    case PruneOp(_) => true
    case PurgeOp(_) => true
  }

  lemma {:induction false} InsertedDescribed<V, C>(t: Table<V, C>, batch: seq<Row<V, C>>, p: (Item, C) -> bool)
    requires Described(t, p) && AllDescribed(batch, p)
    ensures Described(Table(InsertRows(t.rows, t.cursors, batch), t.cursors), p)
  {
    if batch != [] {
      InsertedDescribed(t, batch[..|batch| - 1], p);
    }
  }

  lemma {:induction false} AdvancedDescribed<V, C>(t: Table<V, C>, batch: seq<Row<V, C>>, p: (Item, C) -> bool)
    requires Described(t, p) && AllDescribed(batch, p)
    ensures Described(Table(t.rows, AdvanceAll(t.cursors, batch)), p)
  {
    if batch != [] {
      AdvancedDescribed(t, batch[..|batch| - 1], p);
    }
  }

  lemma {:induction false} AddedDescribed<V, C>(t: Table<V, C>, batch: seq<Row<V, C>>, p: (Item, C) -> bool)
    requires Described(t, p) && AllDescribed(batch, p)
    ensures Described(Table(AddRows(t.rows, batch), t.cursors), p)
  {
    if batch != [] {
      AddedDescribed(t, batch[..|batch| - 1], p);
    }
  }

  lemma {:induction false} AdmittedDescribed<V, C>(t: Table<V, C>, batch: seq<Row<V, C>>, p: (Item, C) -> bool)
    requires AllDescribed(batch, p)
    ensures AllDescribed(AdmittedRows(t, batch), p)
  {
    if batch != [] {
      AdmittedDescribed(t, batch[..|batch| - 1], p);
    }
  }

  lemma StepDescribed<V, C>(t: Table<V, C>, op: Op<V, C>, p: (Item, C) -> bool)
    requires Described(t, p) && Brings(op, p)
    ensures Described(Step(t, op), p)
  {
    match op
    case SaveOp(batch) =>
      InsertedDescribed(t, batch, p);
      AdvancedDescribed(Table(InsertRows(t.rows, t.cursors, batch), t.cursors), batch, p);
    case ReplaceOp(source, edges) =>
      if Replaced(t, source, edges).Ok? {
        var admitted := AdmittedRows(t, edges);
        AdmittedDescribed(t, edges, p);
        var kept := Table(WithoutItems(t.rows, ItemsOf(admitted)), t.cursors);
        AddedDescribed(kept, admitted, p);
        AdvancedDescribed(Table(AddRows(kept.rows, admitted), t.cursors), edges, p);
      }
    case PruneOp(_) =>
    case PurgeOp(_) =>
  }

  lemma {:induction false} RunDescribed<V, C>(t: Table<V, C>, ops: seq<Op<V, C>>, p: (Item, C) -> bool)
    requires Described(t, p)
    requires forall i :: 0 <= i < |ops| ==> Brings(ops[i], p)
    ensures Described(Run(t, ops), p)
  {
    if ops != [] {
      RunDescribed(t, ops[..|ops| - 1], p);
      StepDescribed(Run(t, ops[..|ops| - 1]), ops[|ops| - 1], p);
    }
  }

  // ------------------------------------------------------------ the connection table

  /** The item's id is that of a connection with these ends. */
  ghost predicate NamedBy(item: Item, e: Ends) {
    exists kind :: item.id == EdgeId(kind, e)
  }

  /** Ends whose ids tell them apart. */
  predicate Plain(e: Ends) {
    ':' !in e.from
  }

  /** The record keeps the ends that its id is made of. */
  ghost function Named(): (Item, Ends) -> bool {
    (item: Item, e: Ends) => NamedBy(item, e)
  }

  /** And these have no colon. */
  ghost function PlainlyNamed(): (Item, Ends) -> bool {
    (item: Item, e: Ends) => NamedBy(item, e) && Plain(e)
  }

  lemma NamesAgree(item: Item, e: Ends, f: Ends)
    requires NamedBy(item, e) && NamedBy(item, f) && Plain(e) && Plain(f)
    ensures e == f
  {
    var j :| item.id == EdgeId(j, e);
    var k :| item.id == EdgeId(k, f);
    EdgeIdIsUnambiguous(j, e, k, f);
  }

  /** In a table of plainly named records, a purge takes all of a connection or nothing of it. */
  lemma PurgeOfPlain<W>(t: Table<W, Ends>, id: NodeId, item: Item, e: Ends)
    requires Described(t, PlainlyNamed())
    requires NamedBy(item, e) && Plain(e)
    ensures var purge := PurgeOp(Touching(id));
            if TouchedBy(e, id) then Forgotten(Step(t, purge), item) else Spares(t, purge, item)
  {
    forall k | k in t.rows && k.item == item ensures t.rows[k].info == e {
      NamesAgree(item, t.rows[k].info, e);
    }
    if item in t.cursors {
      NamesAgree(item, t.cursors[item].info, e);
    }
  }

  /** After any saves, snapshots, prunes and purges whose ids have no colons, purging a node forgets each
      connection of the node wholly and leaves every other one untouched. */
  lemma {:induction false} EdgePurgeForgetsExactlyTheNode<W>(ops: seq<Op<W, Ends>>, id: NodeId, item: Item, e: Ends)
    requires forall i :: 0 <= i < |ops| ==> Brings(ops[i], PlainlyNamed())
    requires NamedBy(item, e) && Plain(e)
    ensures var t := Run(Table(map[], map[]), ops);
            var purge := PurgeOp(Touching(id));
            if TouchedBy(e, id) then Forgotten(Step(t, purge), item) else Spares(t, purge, item)
  {
    RunDescribed(Table(map[], map[]), ops, PlainlyNamed());
    PurgeOfPlain(Run(Table(map[], map[]), ops), id, item, e);
  }

  /** The operation is no purge, or the purge of a node that the connection does not touch. */
  ghost predicate PurgesOthers<W>(op: Op<W, Ends>, e: Ends) {
    op.PurgeOp? ==> exists id :: op.hit == Touching(id) && !TouchedBy(e, id)
  }

  lemma {:induction false} EdgePurgesSpareOthers<W>(t: Table<W, Ends>, ops: seq<Op<W, Ends>>, item: Item, e: Ends)
    requires Described(t, PlainlyNamed())
    requires NamedBy(item, e) && Plain(e)
    requires forall i :: 0 <= i < |ops| ==> Brings(ops[i], PlainlyNamed()) && PurgesOthers(ops[i], e)
    ensures AllSpare(t, ops, item)
  {
    if ops != [] {
      var n := |ops| - 1;
      EdgePurgesSpareOthers(t, ops[..n], item, e);
      if ops[n].PurgeOp? {
        var id :| ops[n].hit == Touching(id) && !TouchedBy(e, id);
        RunDescribed(t, ops[..n], PlainlyNamed());
        PurgeOfPlain(Run(t, ops[..n]), id, item, e);
      }
    }
  }

  /** Old records of a connection stay out, whatever is saved, replaced and pruned in between, and whichever
      nodes are purged that it does not touch; for source ids without colons. */
  lemma {:induction false} StaleEdgesStayOut<W>(t: Table<W, Ends>, batch: seq<Row<W, Ends>>, ops: seq<Op<W, Ends>>,
                                                stale: seq<Row<W, Ends>>)
    requires Described(t, PlainlyNamed()) && AllDescribed(batch, PlainlyNamed()) && AllDescribed(stale, PlainlyNamed())
    requires forall i :: 0 <= i < |ops| ==> Brings(ops[i], PlainlyNamed())
    requires forall i, j :: 0 <= i < |ops| && 0 <= j < |stale| ==> PurgesOthers(ops[i], stale[j].info)
    requires forall j :: 0 <= j < |stale| ==>
               exists k :: 0 <= k < |batch| && batch[k].item == stale[j].item && batch[k].time >= stale[j].time
    ensures var later := Run(Saved(t, batch), ops); Saved(later, stale) == later
  {
    StepDescribed(t, SaveOp(batch), PlainlyNamed());
    forall j | 0 <= j < |stale| ensures AllSpare(Saved(t, batch), ops, stale[j].item) {
      EdgePurgesSpareOthers(Saved(t, batch), ops, stale[j].item, stale[j].info);
    }
    StaleSnapshotIsIgnored(t, batch, ops, stale);
  }

  // ------------------------------------------------------------ what a purge lets in again

  /** A record that the table ignores, and that it takes after the purge. */
  predicate Readmits<V(==), C(==)>(t: Table<V, C>, hit: (Item, C) -> bool, record: Row<V, C>) {
    Saved(t, [record]) == t && Saved(Purged(t, hit), [record]) != Purged(t, hit)
  }

  lemma SavedOne<V, C>(t: Table<V, C>, record: Row<V, C>)
    ensures Saved(t, [record]) == t <==> !Fresh(t.cursors, record)
    ensures Fresh(t.cursors, record) ==> record.At() in Saved(t, [record]).rows
  {
    assert [record][..0] == [];
    assert InsertRows(t.rows, t.cursors, [record]) == InsertOrIgnore(t.rows, t.cursors, record);
    assert AdvanceAll(t.cursors, [record]) == Advance(t.cursors, record);
  }

  /** Exactly when a purge lets records of an id in again that were known to be old: it takes the cursor. */
  lemma PurgeReadmitsIff<V, C>(t: Table<V, C>, hit: (Item, C) -> bool, item: Item, value: V, info: C)
    ensures (exists time :: Readmits(t, hit, Row(item, time, value, info)))
       <==> item in t.cursors && hit(item, t.cursors[item].info)
  {
    forall time ensures Readmits(t, hit, Row(item, time, value, info))
                   <==> && item in t.cursors && hit(item, t.cursors[item].info) && time <= t.cursors[item].time
    {
      SavedOne(t, Row(item, time, value, info));
      SavedOne(Purged(t, hit), Row(item, time, value, info));
    }
    if item in t.cursors && hit(item, t.cursors[item].info) {
      assert Readmits(t, hit, Row(item, t.cursors[item].time, value, info));
    }
  }

  /** After any run, with any source ids: exactly when purging a node lets old records of a connection in
      again that does not touch it.  The stored cursor is then that of another connection, which touches the
      node and has the same id. */
  lemma {:induction false} UntouchedIsReadmittedIff<W>(ops: seq<Op<W, Ends>>, id: NodeId, item: Item, e: Ends, value: W)
    requires forall i :: 0 <= i < |ops| ==> Brings(ops[i], Named())
    requires NamedBy(item, e) && !TouchedBy(e, id)
    ensures var t := Run(Table(map[], map[]), ops);
            && ((exists time :: Readmits(t, Touching(id), Row(item, time, value, e)))
                <==> item in t.cursors && TouchedBy(t.cursors[item].info, id))
            && (item in t.cursors && TouchedBy(t.cursors[item].info, id) ==> SameIdOnly(e, t.cursors[item].info))
  {
    var t := Run(Table(map[], map[]), ops);
    PurgeReadmitsIff(t, Touching(id), item, value, e);
    RunDescribed(Table(map[], map[]), ops, Named());
    if item in t.cursors && TouchedBy(t.cursors[item].info, id) {
      var f := t.cursors[item].info;
      var j :| item.id == EdgeId(j, e);
      var k :| item.id == EdgeId(k, f);
      EdgeIdsAgreeIff(j, e, k, f);
    }
  }

  /** Two connections told apart by their ends alone: a colon divides them at another place. */
  predicate SameIdOnly(e: Ends, f: Ends) {
    e.network == f.network && (Shifted(e.from, e.to, f.from, f.to) || Shifted(f.from, f.to, e.from, e.to))
  }

  /** Exactly when a purge leaves an id's newest row at its cursor: it takes all of its rows, or it takes
      neither the cursor nor the row at the cursor. */
  lemma PurgeKeepsConsistentIff<V, C>(t: Table<V, C>, hit: (Item, C) -> bool, item: Item)
    requires Consistent(t, item)
    ensures Consistent(Purged(t, hit), item)
       <==> || (forall k :: k in t.rows && k.item == item ==> hit(item, t.rows[k].info))
            || (&& item in t.cursors && !hit(item, t.cursors[item].info)
                && var newest := Key(item, t.cursors[item].time);
                   newest in t.rows && !hit(item, t.rows[newest].info))
  {
    var after := Purged(t, hit);
    if k :| k in t.rows && k.item == item && !hit(item, t.rows[k].info) {
      assert k in after.rows;
    }
  }

  lemma PlainTextIsCanonical(source: string)
    requires source == "a" || source == "c" || source == "a:b" || source == "b:c"
    ensures Canonical(Consolidation.NodeId(Consolidation.MeshCore, source))
  {
    StripKeeps(source);
    StripKeeps("meshcore");
    assert Lower("meshcore") == "meshcore";
    assert |source| == 3 ==> source[1] == ':';
    assert |source| == 1 ==> Lower(source) == source;
  }

  /** Where a purge does harm: two connections of MeshCore nodes whose ids hold colons share one id and so
      one cursor.  Purging a node of the newer one takes the shared cursor, and a record of the other one,
      older than the newest known, is let in again; so it is when pruning has removed all rows before. */
  lemma SharedIdForgetsTooMuch()
    ensures var network := Consolidation.MeshCore;
            var kept, gone := Ends(network, "a", "b:c"), Ends(network, "a:b", "c");
            var item := Item(Consolidation.MeshcoreHub, EdgeId(Observed, kept));
            var hit := Touching(Consolidation.NodeId(network, "a:b"));
            var t := Saved(Table(map[], map[]), [Row(item, 5, 0, kept), Row(item, 9, 1, gone)]);
            && (forall source ::
                  source in ["a", "c", "a:b", "b:c"] ==> Canonical(Consolidation.NodeId(network, source)))
            && EdgeId(Observed, kept) == EdgeId(Observed, gone)
            && Consistent(t, item) && !Consistent(Purged(t, hit), item)
            && Readmits(t, hit, Row(item, 3, 2, kept))
            && Pruned(t, 10).rows == map[] && Readmits(Pruned(t, 10), hit, Row(item, 3, 2, kept))
  {
    var network := Consolidation.MeshCore;
    var kept, gone := Ends(network, "a", "b:c"), Ends(network, "a:b", "c");
    EdgeIdsAgreeIff(Observed, kept, Observed, gone);
    assert Shifted(kept.from, kept.to, gone.from, gone.to);
    forall source | source in ["a", "c", "a:b", "b:c"] ensures Canonical(Consolidation.NodeId(network, source)) {
      PlainTextIsCanonical(source);
    }
    var item := Item(Consolidation.MeshcoreHub, EdgeId(Observed, kept));
    SharedCursor(item, kept, gone);
  }

  lemma SharedCursor(item: Item, kept: Ends, gone: Ends)
    requires kept == Ends(Consolidation.MeshCore, "a", "b:c") && gone == Ends(Consolidation.MeshCore, "a:b", "c")
    ensures var hit := Touching(Consolidation.NodeId(Consolidation.MeshCore, "a:b"));
            var t := Saved(Table(map[], map[]), [Row(item, 5, 0, kept), Row(item, 9, 1, gone)]);
            && Consistent(t, item) && !Consistent(Purged(t, hit), item)
            && Readmits(t, hit, Row(item, 3, 2, kept))
            && Pruned(t, 10).rows == map[] && Readmits(Pruned(t, 10), hit, Row(item, 3, 2, kept))
  {
    var hit := Touching(Consolidation.NodeId(Consolidation.MeshCore, "a:b"));
    var older, newer, record := Row(item, 5, 0, kept), Row(item, 9, 1, gone), Row(item, 3, 2, kept);
    var t := Saved(Table(map[], map[]), [older, newer]);
    TwoSaved(older, newer);
    assert older.At() in Purged(t, hit).rows && item !in Purged(t, hit).cursors;
    SavedOne(t, record);
    SavedOne(Purged(t, hit), record);
    SavedOne(Pruned(t, 10), record);
    SavedOne(Purged(Pruned(t, 10), hit), record);
  }
}
