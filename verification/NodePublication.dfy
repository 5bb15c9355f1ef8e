/** From stored rows to the published node list: `load_for_publication` (`storage.py`) and the
    grouping of `build_public_documents` (`publication.py`). */
module NodePublication {
  import opened Basics
  import opened Ordering
  import opened Texts
  import opened Consolidation

  /** Ids are sorted as texts. */
  predicate IdLe(a: NodeId, b: NodeId) {
    LexLe(a.Text(), b.Text())
  }

  lemma IdOrder()
    ensures TotalPreorder(IdLe)
    ensures forall a, b :: IdLe(a, b) && IdLe(b, a) ==> a == b
  {
    LexIsTotalOrder();
    forall a, b | IdLe(a, b) && IdLe(b, a) ensures a == b {
      IdTextIsUnambiguous(a, b);
    }
    assert forall a, b :: IdLe(a, b) || IdLe(b, a);
    assert forall a, b, c :: IdLe(a, b) && IdLe(b, c) ==> IdLe(a, c);
  }

  // ------------------------------------------------------------ streaming selection

  /** How many rows at the front belong to the node of the first one. */
  function GroupLength(rows: seq<Observation>): (n: nat)
    requires rows != []
    ensures 1 <= n <= |rows|
    ensures forall i :: 0 <= i < n ==> rows[i].Id() == rows[0].Id()
    ensures n < |rows| ==> rows[n].Id() != rows[0].Id()
  {
    if |rows| == 1 then 1
    else if rows[1].Id() == rows[0].Id() then 1 + GroupLength(rows[1..])
    else 1
  }

  lemma {:induction false} GroupIsOneNode(rows: seq<Observation>)
    requires rows != []
    ensures OneNode(rows[..GroupLength(rows)])
  {
    var group := rows[..GroupLength(rows)];
    forall o | o in group ensures o.Id() == group[0].Id() {
      var i :| 0 <= i < |group| && group[i] == o;
    }
  }

  /** Each run of rows of one node, reduced by a selection. */
  ghost function CompactBy(rows: seq<Observation>, select: seq<Observation> -> seq<Observation>): seq<Observation>
    decreases |rows|
  {
    if rows == [] then []
    else
      var n := GroupLength(rows);
      select(rows[..n]) + CompactBy(rows[n..], select)
  }

  lemma {:induction false} GroupLengthIs(rows: seq<Observation>, n: nat)
    requires 1 <= n <= |rows|
    requires forall i :: 0 <= i < n ==> rows[i].Id() == rows[0].Id()
    requires n < |rows| ==> rows[n].Id() != rows[0].Id()
    ensures GroupLength(rows) == n
  {
  }

  /** A whole group in front of other rows is compacted on its own. */
  lemma {:induction false} CompactSplit(group: seq<Observation>, rest: seq<Observation>,
                                        select: seq<Observation> -> seq<Observation>)
    requires group != [] && OneNode(group)
    requires rest != [] ==> rest[0].Id() != group[0].Id()
    ensures CompactBy(group + rest, select) == select(group) + CompactBy(rest, select)
  {
    var all, n := group + rest, |group|;
    forall i | 0 <= i < n ensures all[i].Id() == all[0].Id() {
      assert all[i] == group[i] && group[i] in group;
    }
    GroupLengthIs(all, n);
    UnfoldCompact(all, n, group, rest, select);
  }

  lemma {:induction false} UnfoldCompact(all: seq<Observation>, n: nat, group: seq<Observation>, rest: seq<Observation>,
                      select: seq<Observation> -> seq<Observation>)
    requires all == group + rest && n == |group| >= 1 && GroupLength(all) == n
    ensures CompactBy(all, select) == select(group) + CompactBy(rest, select)
  {
    assert all[..n] == group && all[n..] == rest;
  }

  /** What is retained of the rows of one node. */
  ghost function SelectedRows(rows: seq<Observation>): seq<Observation> {
    if Select(rows).Ok? then Select(rows).value else []
  }

  /** The rows `load_for_publication` returns. */
  ghost function Compact(rows: seq<Observation>): seq<Observation> {
    CompactBy(rows, SelectedRows)
  }

  method SelectGroup(group: seq<Observation>) returns (kept: seq<Observation>)
    requires OneNode(group)
    ensures kept == SelectedRows(group)
  {
    var r := SelectPublicationObservations(group);
    kept := r.value;
  }

  /** In the middle of the pass: what is selected, then the open group, then the unread rows. */
  ghost predicate Passing(rows: seq<Observation>, selected: seq<Observation>, current: seq<Observation>, i: nat) {
    && i <= |rows|
    && OneNode(current)
    && Compact(rows) == selected + CompactBy(current + rows[i..], SelectedRows)
  }

  lemma PassBegins(rows: seq<Observation>)
    ensures Passing(rows, [], [], 0)
  {
    assert [] + rows[0..] == rows;
  }

  /** Closing the open group. */
  lemma CloseGroup(rows: seq<Observation>, selected: seq<Observation>, current: seq<Observation>, i: nat)
    requires Passing(rows, selected, current, i)
    requires current != [] && (i < |rows| ==> rows[i].Id() != current[0].Id())
    ensures Passing(rows, selected + SelectedRows(current), [], i)
  {
    var rest := rows[i..];
    CompactSplit(current, rest, SelectedRows);
    GroupClosed(Compact(rows), selected, SelectedRows(current), CompactBy(rest, SelectedRows),
                CompactBy(current + rest, SelectedRows));
    assert [] + rest == rest;
  }

  lemma GroupClosed(whole: seq<Observation>, xs: seq<Observation>, ys: seq<Observation>, zs: seq<Observation>,
                    open: seq<Observation>)
    requires whole == xs + open && open == ys + zs
    ensures whole == (xs + ys) + zs
  {
    assert xs + (ys + zs) == (xs + ys) + zs;
  }

  lemma ExtendGroup(rows: seq<Observation>, selected: seq<Observation>, current: seq<Observation>, i: nat)
    requires Passing(rows, selected, current, i) && i < |rows|
    requires current != [] ==> rows[i].Id() == current[0].Id()
    ensures Passing(rows, selected, current + [rows[i]], i + 1)
  {
    MoveOne(current, rows, i);
    GroupGrows(current, rows[i]);
  }

  lemma MoveOne(current: seq<Observation>, rows: seq<Observation>, i: nat)
    requires i < |rows|
    ensures (current + [rows[i]]) + rows[i + 1..] == current + rows[i..]
  {
  }

  lemma GroupGrows(group: seq<Observation>, o: Observation)
    requires OneNode(group) && (group != [] ==> o.Id() == group[0].Id())
    ensures OneNode(group + [o])
  {
  }

  lemma PassEnds(rows: seq<Observation>, selected: seq<Observation>)
    requires Passing(rows, selected, [], |rows|)
    ensures selected == Compact(rows)
  {
    assert [] + rows[|rows|..] == [];
  }

  /** `load_for_publication` over the rows in the order of its query. */
  method LoadForPublication(rows: seq<Observation>) returns (selected: seq<Observation>)
    ensures selected == Compact(rows)
  {
    selected := [];
    var current: seq<Observation> := [];
    PassBegins(rows);
    for i := 0 to |rows|
      invariant Passing(rows, selected, current, i)
    {
      if current != [] && rows[i].Id() != current[0].Id() {
        CloseGroup(rows, selected, current, i);
        var kept := SelectGroup(current);
        selected := selected + kept;
        current := [];
      }
      ExtendGroup(rows, selected, current, i);
      current := current + [rows[i]];
    }
    if current != [] {
      CloseGroup(rows, selected, current, |rows|);
      var kept := SelectGroup(current);
      selected := selected + kept;
    }
    PassEnds(rows, selected);
  }

  // ------------------------------------------------------------ the node list

  /** The rows of one node, in order. */
  function OfNode(observations: seq<Observation>, id: NodeId): seq<Observation> {
    if observations == [] then []
    else
      var n := |observations| - 1;
      OfNode(observations[..n], id) + (if observations[n].Id() == id then [observations[n]] else [])
  }

  lemma {:induction false} OfNodeElements(observations: seq<Observation>, id: NodeId)
    ensures forall o :: o in OfNode(observations, id) <==> o in observations && o.Id() == id
  {
    if observations != [] {
      var n := |observations| - 1;
      OfNodeElements(observations[..n], id);
      assert observations == observations[..n] + [observations[n]];
    }
  }

  /** The ids that are not excluded, by first appearance: the keys of `grouped`. */
  function Ids(observations: seq<Observation>, excluded: set<NodeId>): seq<NodeId> {
    if observations == [] then []
    else
      var n := |observations| - 1;
      var front := Ids(observations[..n], excluded);
      var id := observations[n].Id();
      if id in excluded || id in front then front else front + [id]
  }

  ghost predicate HasRow(observations: seq<Observation>, id: NodeId) {
    exists o :: o in observations && o.Id() == id
  }

  lemma {:induction false} IdsElements(observations: seq<Observation>, excluded: set<NodeId>)
    ensures Distinct(Ids(observations, excluded))
    ensures forall id :: id in Ids(observations, excluded) <==> id !in excluded && HasRow(observations, id)
  {
    if observations != [] {
      var n := |observations| - 1;
      var front, last := observations[..n], observations[n];
      IdsElements(front, excluded);
      assert observations == front + [last];
      forall id ensures HasRow(observations, id) <==> HasRow(front, id) || id == last.Id() {
        if id == last.Id() { assert last in observations; }
      }
    }
  }

  /** What a publication asks of every node. */
  datatype Request = Request(excluded: set<NodeId>, inRegion: Node -> bool, now: int, settings: Settings)

  /** What becomes of one node: published, left out (None), or an error. */
  ghost function Outcome(rows: seq<Observation>, request: Request): Result<Option<Node>, MergeError> {
    var merged := Merge(rows, request.now, request.settings);
    if merged.Ok? && merged.value.Some? && !request.inRegion(merged.value.value) then Ok(None) else merged
  }

  /** The outcome of a node as a function of its id. */
  ghost function OutcomeById(observations: seq<Observation>,
                             request: Request): NodeId -> Result<Option<Node>, MergeError> {
    (id: NodeId) => Outcome(OfNode(observations, id), request)
  }

  /** The nodes of the listed ids that are published, or the first error. */
  ghost function Collect(ids: seq<NodeId>,
                         outcome: NodeId -> Result<Option<Node>, MergeError>): Result<seq<Node>, MergeError> {
    if ids == [] then Ok([])
    else
      var n := |ids| - 1;
      var front := Collect(ids[..n], outcome);
      if front.Err? then front
      else if outcome(ids[n]).Err? then Err(outcome(ids[n]).error)
      else if outcome(ids[n]).value.Some? then Ok(front.value + [outcome(ids[n]).value.value])
      else front
  }

  ghost function NodeList(observations: seq<Observation>, request: Request): Result<seq<Node>, MergeError> {
    Collect(StableSort(Ids(observations, request.excluded), IdLe), OutcomeById(observations, request))
  }

  lemma {:induction false} CollectStopsAtError(ids: seq<NodeId>, k: nat,
                                               outcome: NodeId -> Result<Option<Node>, MergeError>)
    requires k <= |ids|
    requires Collect(ids[..k], outcome).Err?
    ensures Collect(ids, outcome) == Collect(ids[..k], outcome)
  {
    if k < |ids| {
      var n := |ids| - 1;
      assert ids[..n][..k] == ids[..k];
      CollectStopsAtError(ids[..n], k, outcome);
    } else {
      assert ids[..k] == ids;
    }
  }

  /** The rows grouped by node, and the ids by first appearance. */
  method GroupRows(observations: seq<Observation>, excluded: set<NodeId>)
    returns (keys: seq<NodeId>, grouped: map<NodeId, seq<Observation>>)
    ensures keys == Ids(observations, excluded)
    ensures forall id :: id in keys ==> id in grouped && grouped[id] == OfNode(observations, id)
  {
    keys := [];
    grouped := map[];
    for i := 0 to |observations|
      invariant keys == Ids(observations[..i], excluded)
      invariant forall id :: id in grouped <==> id in keys
      invariant forall id :: id in grouped ==> id !in excluded && grouped[id] == OfNode(observations[..i], id)
    {
      assert observations[..i + 1][..i] == observations[..i];
      var id := observations[i].Id();
      if id in excluded {
        continue;
      }
      if id !in grouped {
        IdsElements(observations[..i], excluded);
        NoRowsYet(observations[..i], id);
        grouped := grouped[id := []];
        keys := keys + [id];
      }
      grouped := grouped[id := grouped[id] + [observations[i]]];
    }
    assert observations[..|observations|] == observations;
  }

  method NodeOutcome(rows: seq<Observation>, request: Request) returns (r: Result<Option<Node>, MergeError>)
    ensures r == Outcome(rows, request)
  {
    r := MergeObservations(rows, request.now, request.settings);
    if r.Ok? && r.value.Some? {
      if !request.inRegion(r.value.value) {
        r := Ok(None);
      }
    }
  }

  /** The grouping and merging loops of `build_public_documents`. */
  method BuildNodes(observations: seq<Observation>, request: Request) returns (r: Result<seq<Node>, MergeError>)
    ensures r == NodeList(observations, request)
  {
    var keys, grouped := GroupRows(observations, request.excluded);
    var ids := StableSort(keys, IdLe);
    SameElements(keys, ids);
    r := MergeGroups(ids, grouped, request, OutcomeById(observations, request));
  }

  /** Merging the groups in order, until the first error. */
  method MergeGroups(ids: seq<NodeId>, grouped: map<NodeId, seq<Observation>>, request: Request,
                     ghost outcome: NodeId -> Result<Option<Node>, MergeError>)
    returns (r: Result<seq<Node>, MergeError>)
    requires forall id :: id in ids ==> id in grouped && Outcome(grouped[id], request) == outcome(id)
    ensures r == Collect(ids, outcome)
  {
    var nodes: seq<Node> := [];
    for k := 0 to |ids|
      invariant Collect(ids[..k], outcome) == Ok(nodes)
    {
      assert ids[..k + 1][..k] == ids[..k];
      var node := NodeOutcome(grouped[ids[k]], request);
      if node.Err? {
        CollectStopsAtError(ids, k + 1, outcome);
        return Err(node.error);
      }
      if node.value.Some? {
        nodes := nodes + [node.value.value];
      }
    }
    assert ids[..|ids|] == ids;
    return Ok(nodes);
  }

  lemma {:induction false} NoRowsYet(observations: seq<Observation>, id: NodeId)
    requires !HasRow(observations, id)
    ensures OfNode(observations, id) == []
  {
    if observations != [] {
      var n := |observations| - 1;
      assert observations[n] in observations;
      assert forall o :: o in observations[..n] ==> o in observations;
      NoRowsYet(observations[..n], id);
    }
  }

  // ------------------------------------------------------------ compaction loses nothing

  /** Rows in the order of the query: ascending ids, so each node's rows are together. */
  predicate ById(rows: seq<Observation>) {
    forall i, j :: 0 <= i < j < |rows| ==> IdLe(rows[i].Id(), rows[j].Id())
  }

  lemma {:induction false} OfNodeConcat(xs: seq<Observation>, ys: seq<Observation>, id: NodeId)
    ensures OfNode(xs + ys, id) == OfNode(xs, id) + OfNode(ys, id)
  {
    if ys == [] {
      assert xs + ys == xs;
    } else {
      var n := |ys| - 1;
      assert (xs + ys)[..|xs + ys| - 1] == xs + ys[..n];
      OfNodeConcat(xs, ys[..n], id);
    }
  }

  lemma {:induction false} OfNodeAll(xs: seq<Observation>, id: NodeId)
    requires forall o :: o in xs ==> o.Id() == id
    ensures OfNode(xs, id) == xs
  {
    if xs != [] {
      OfNodeAll(xs[..|xs| - 1], id);
    }
  }

  /** No row after the first group is of the first node. */
  lemma {:induction false} RestIsOthers(rows: seq<Observation>)
    requires rows != [] && ById(rows)
    ensures ById(rows[GroupLength(rows)..])
    ensures forall o :: o in rows[GroupLength(rows)..] ==> o.Id() != rows[0].Id()
  {
    var n := GroupLength(rows);
    IdOrder();
    forall o | o in rows[n..] ensures o.Id() != rows[0].Id() {
      var i :| 0 <= i < |rows| - n && rows[n..][i] == o;
      if i > 0 {
        assert IdLe(rows[0].Id(), rows[n].Id()) && IdLe(rows[n].Id(), rows[n + i].Id());
      }
    }
  }

  /** A selection that never empties a node and adds nothing to it. */
  ghost predicate Selective(select: seq<Observation> -> seq<Observation>) {
    && select([]) == []
    && forall group :: group != [] && OneNode(group) ==>
         select(group) != [] && forall o :: o in select(group) ==> o in group
  }

  lemma SelectionIsSelective()
    ensures Selective(SelectedRows)
  {
    forall group | group != [] && OneNode(group)
      ensures SelectedRows(group) != [] && forall o :: o in SelectedRows(group) ==> o in group
    {
      SelectedRowsAreRows(group);
    }
  }

  lemma SelectedRowsAreRows(group: seq<Observation>)
    requires group != [] && OneNode(group)
    ensures SelectedRows(group) != [] && forall o :: o in SelectedRows(group) ==> o in group
  {
    SelectionIsSorted(group);
  }

  /** After compaction, the rows of each node are its selection. */
  lemma {:induction false} CompactOfNode(rows: seq<Observation>, select: seq<Observation> -> seq<Observation>,
                                         id: NodeId)
    requires ById(rows) && Selective(select)
    ensures OneNode(OfNode(rows, id))
    ensures OfNode(CompactBy(rows, select), id) == select(OfNode(rows, id))
    decreases |rows|
  {
    if rows != [] {
      var n := GroupLength(rows);
      RestIsOthers(rows);
      CompactOfNode(rows[n..], select, id);
      CompactOfNodeStep(rows, select, id);
    }
  }

  /** One group, and the rows after it, which are all of other nodes. */
  lemma {:induction false} CompactOfNodeStep(rows: seq<Observation>, select: seq<Observation> -> seq<Observation>,
                                             id: NodeId)
    requires rows != [] && ById(rows) && Selective(select)
    ensures var n := GroupLength(rows);
            && OfNode(rows, id) == (if id == rows[0].Id() then rows[..n] else OfNode(rows[n..], id))
            && OfNode(CompactBy(rows, select), id)
            == (if id == rows[0].Id() then select(rows[..n]) else []) + OfNode(CompactBy(rows[n..], select), id)
            && OneNode(rows[..n])
            && (id == rows[0].Id() ==> OfNode(rows[n..], id) == [])
  {
    var n := GroupLength(rows);
    GroupIsOneNode(rows);
    RestIsOthers(rows);
    assert rows == rows[..n] + rows[n..];
    SelectionOfOneNode(rows[..n], select);
    OfNodeFront(rows[..n], rows[n..], rows[0].Id(), id);
    OfNodeFront(select(rows[..n]), CompactBy(rows[n..], select), rows[0].Id(), id);
    if id == rows[0].Id() {
      NoRowsYet(rows[n..], id);
    }
  }

  lemma SelectionOfOneNode(group: seq<Observation>, select: seq<Observation> -> seq<Observation>)
    requires group != [] && OneNode(group) && Selective(select)
    ensures forall o :: o in group ==> o.Id() == group[0].Id()
    ensures forall o :: o in select(group) ==> o.Id() == group[0].Id()
  {
    assert group[0] in group;
  }

  /** Rows that are all of one node, in front of others. */
  lemma {:induction false} OfNodeFront(front: seq<Observation>, rest: seq<Observation>, node: NodeId, id: NodeId)
    requires forall o :: o in front ==> o.Id() == node
    ensures OfNode(front + rest, id) == (if id == node then front else []) + OfNode(rest, id)
  {
    OfNodeConcat(front, rest, id);
    if id == node {
      OfNodeAll(front, id);
    } else {
      NoRowsYet(front, id);
    }
  }

  lemma {:induction false} CompactKeepsIds(rows: seq<Observation>, select: seq<Observation> -> seq<Observation>,
                                           id: NodeId)
    requires Selective(select)
    ensures HasRow(rows, id) <==> HasRow(CompactBy(rows, select), id)
    decreases |rows|
  {
    if rows != [] {
      var n := GroupLength(rows);
      GroupIsOneNode(rows);
      var group, rest := rows[..n], rows[n..];
      CompactKeepsIds(rest, select, id);
      var kept := select(group);
      assert rows == group + rest;
      HasRowConcat(group, rest, id);
      HasRowConcat(kept, CompactBy(rest, select), id);
      assert group[0] in group && kept[0] in kept && kept[0] in group;
    }
  }

  lemma HasRowConcat(xs: seq<Observation>, ys: seq<Observation>, id: NodeId)
    ensures HasRow(xs + ys, id) <==> HasRow(xs, id) || HasRow(ys, id)
  {
    assert forall o :: o in xs + ys <==> o in xs || o in ys;
  }

  /** Compaction keeps the ids, each once. */
  lemma {:induction false} CompactKeepsIdLists(rows: seq<Observation>, select: seq<Observation> -> seq<Observation>,
                                               excluded: set<NodeId>)
    requires Selective(select)
    ensures Distinct(Ids(rows, excluded)) && Distinct(Ids(CompactBy(rows, select), excluded))
    ensures forall id :: id in Ids(rows, excluded) <==> id in Ids(CompactBy(rows, select), excluded)
  {
    IdsElements(rows, excluded);
    IdsElements(CompactBy(rows, select), excluded);
    forall id ensures id in Ids(rows, excluded) <==> id in Ids(CompactBy(rows, select), excluded) {
      CompactKeepsIds(rows, select, id);
    }
  }

  lemma {:induction false} SameIdsSortAlike(xs: seq<NodeId>, ys: seq<NodeId>)
    requires Distinct(xs) && Distinct(ys) && forall id :: id in xs <==> id in ys
    ensures StableSort(xs, IdLe) == StableSort(ys, IdLe)
  {
    DistinctSameSet(xs, ys);
    IdOrder();
    SortIgnoresArrangement(xs, ys, IdLe);
  }

  lemma {:induction false} CollectAgrees(ids: seq<NodeId>, f: NodeId -> Result<Option<Node>, MergeError>,
                                         g: NodeId -> Result<Option<Node>, MergeError>)
    requires forall id :: f(id) == g(id)
    ensures Collect(ids, f) == Collect(ids, g)
  {
    if ids != [] {
      CollectAgrees(ids[..|ids| - 1], f, g);
    }
  }

  lemma OutcomeOfSelection(rows: seq<Observation>, request: Request)
    requires OneNode(rows)
    ensures Outcome(SelectedRows(rows), request) == Outcome(rows, request)
  {
    MergeOfSelection(rows, request.now, request.settings);
  }

  /** The node list published from `load_for_publication` is the one that all stored rows would give,
      whatever is excluded, wherever the region is, and whatever the clock and windows. */
  lemma CompactionIsInvisible(rows: seq<Observation>, request: Request)
    requires ById(rows)
    ensures NodeList(Compact(rows), request) == NodeList(rows, request)
  {
    SelectionIsSelective();
    CompactKeepsIdLists(rows, SelectedRows, request.excluded);
    SameIdsSortAlike(Ids(Compact(rows), request.excluded), Ids(rows, request.excluded));
    var f, g := OutcomeById(Compact(rows), request), OutcomeById(rows, request);
    forall id ensures f(id) == g(id) {
      CompactOfNode(rows, SelectedRows, id);
      OutcomeOfSelection(OfNode(rows, id), request);
    }
    CollectAgrees(StableSort(Ids(rows, request.excluded), IdLe), f, g);
  }

  // ------------------------------------------------------------ what the published list holds

  /** A merged node carries the id of its rows. */
  lemma MergedKeepsId(rows: seq<Observation>, request: Request, id: NodeId)
    requires forall o :: o in rows ==> o.Id() == id
    ensures var r := Outcome(rows, request); r.Ok? && r.value.Some? ==> rows != [] && r.value.value.id == id
  {
    if rows != [] {
      var ordered := StableSort(rows, NoLater);
      SameElements(rows, ordered);
      assert ordered[|ordered| - 1] in ordered;
      SomethingChosen(ordered);
    }
  }

  lemma OutcomeKeepsId(observations: seq<Observation>, request: Request, id: NodeId)
    ensures KeepsId(observations, OutcomeById(observations, request), id)
  {
    var rows := OfNode(observations, id);
    OfNodeElements(observations, id);
    MergedKeepsId(rows, request, id);
    if rows != [] {
      assert rows[0] in rows;
    }
  }

  lemma {:induction false} CollectedNodes(ids: seq<NodeId>, outcome: NodeId -> Result<Option<Node>, MergeError>)
    ensures Collect(ids, outcome).Err? <==> exists id :: id in ids && outcome(id).Err?
    ensures Collect(ids, outcome).Ok? ==>
              forall node ::
                node in Collect(ids, outcome).value <==> exists id :: id in ids && outcome(id) == Ok(Some(node))
  {
    if ids != [] {
      var front, last := ids[..|ids| - 1], ids[|ids| - 1];
      assert ids == front + [last];
      CollectedNodes(front, outcome);
    }
  }

  /** Ids ascend strictly. */
  predicate StrictlyById(nodes: seq<Node>) {
    forall i, j :: 0 <= i < j < |nodes| ==> nodes[i].id != nodes[j].id && IdLe(nodes[i].id, nodes[j].id)
  }

  lemma {:induction false} CollectedInOrder(ids: seq<NodeId>, outcome: NodeId -> Result<Option<Node>, MergeError>)
    requires Distinct(ids) && Sorted(ids, IdLe)
    requires forall id :: outcome(id).Ok? && outcome(id).value.Some? ==> outcome(id).value.value.id == id
    ensures Collect(ids, outcome).Ok? ==> StrictlyById(Collect(ids, outcome).value)
  {
    if ids != [] && Collect(ids, outcome).Ok? {
      var front, last := ids[..|ids| - 1], ids[|ids| - 1];
      CollectedInOrder(front, outcome);
      CollectedNodes(front, outcome);
      var nodes := Collect(front, outcome).value;
      forall i | 0 <= i < |nodes| ensures nodes[i].id != last && IdLe(nodes[i].id, last) {
        assert nodes[i] in nodes;
        var id :| id in front && outcome(id) == Ok(Some(nodes[i]));
        var k :| 0 <= k < |front| && front[k] == id;
        assert ids[k] == id && IdLe(ids[k], ids[|ids| - 1]);
      }
    }
  }

  /** Outcomes that carry their id, of nodes that have rows. */
  ghost predicate KeepsIds(observations: seq<Observation>, outcome: NodeId -> Result<Option<Node>, MergeError>) {
    forall id :: KeepsId(observations, outcome, id)
  }

  ghost predicate KeepsId(observations: seq<Observation>, outcome: NodeId -> Result<Option<Node>, MergeError>,
                          id: NodeId) {
    outcome(id).Ok? && outcome(id).value.Some? ==> outcome(id).value.value.id == id && HasRow(observations, id)
  }

  /** The list is strictly ordered and holds exactly the published nodes, or some node failed. */
  ghost predicate Publishes(r: Result<seq<Node>, MergeError>, observations: seq<Observation>, excluded: set<NodeId>,
                            outcome: NodeId -> Result<Option<Node>, MergeError>)
  {
    && (r.Err? <==> exists id :: id !in excluded && HasRow(observations, id) && outcome(id).Err?)
    && (r.Ok? ==> StrictlyById(r.value))
    && (r.Ok? ==> forall node :: node in r.value <==> node.id !in excluded && outcome(node.id) == Ok(Some(node)))
  }

  lemma {:induction false} CollectionPublishes(sorted: seq<NodeId>, observations: seq<Observation>,
                                               excluded: set<NodeId>,
                                               outcome: NodeId -> Result<Option<Node>, MergeError>)
    requires Distinct(sorted) && Sorted(sorted, IdLe)
    requires forall id :: id in sorted <==> id !in excluded && HasRow(observations, id)
    requires KeepsIds(observations, outcome)
    ensures Publishes(Collect(sorted, outcome), observations, excluded, outcome)
  {
    forall id
      ensures outcome(id).Ok? && outcome(id).value.Some? ==>
                outcome(id).value.value.id == id && HasRow(observations, id)
    {
      assert KeepsId(observations, outcome, id);
    }
    CollectedNodes(sorted, outcome);
    CollectedInOrder(sorted, outcome);
  }

  /** The published list: in the order of the id texts, without repetition, exactly the nodes that are not
      excluded and whose rows consolidate to a node inside the region; it fails exactly when some node that
      is not excluded cannot be consolidated. */
  lemma PublishedIff(observations: seq<Observation>, request: Request)
    ensures Publishes(NodeList(observations, request), observations, request.excluded,
                      OutcomeById(observations, request))
  {
    var ids := Ids(observations, request.excluded);
    var sorted := StableSort(ids, IdLe);
    IdsElements(observations, request.excluded);
    SameElements(ids, sorted);
    PermutationStaysDistinct(ids, sorted);
    IdOrder();
    SortSorts(ids, IdLe);
    OutcomesKeepIds(observations, request);
    CollectionPublishes(sorted, observations, request.excluded, OutcomeById(observations, request));
  }

  lemma OutcomesKeepIds(observations: seq<Observation>, request: Request)
    ensures KeepsIds(observations, OutcomeById(observations, request))
  {
    forall id ensures KeepsId(observations, OutcomeById(observations, request), id) {
      OutcomeKeepsId(observations, request, id);
    }
  }

  // ------------------------------------------------------------ the published list in plain terms

  lemma {:induction false} OfNodeCounts(observations: seq<Observation>, id: NodeId, o: Observation)
    ensures multiset(OfNode(observations, id))[o] == if o.Id() == id then multiset(observations)[o] else 0
  {
    if observations != [] {
      var n := |observations| - 1;
      OfNodeCounts(observations[..n], id, o);
      assert observations == observations[..n] + [observations[n]];
    }
  }

  /** Consolidating the rows of one node gives this node, and it is in the region. */
  ghost predicate IsPublishable(observations: seq<Observation>, request: Request, node: Node) {
    && node.id !in request.excluded
    && Merge(OfNode(observations, node.id), request.now, request.settings) == Ok(Some(node))
    && request.inRegion(node)
  }

  /** There is no list exactly when the rows of some node that is not excluded cannot be consolidated. */
  lemma {:induction false} ListFailsIff(observations: seq<Observation>, request: Request)
    ensures NodeList(observations, request).Err?
       <==> exists o :: && o in observations && NodeId(o.network, o.sourceId) !in request.excluded
                        && Merge(OfNode(observations, NodeId(o.network, o.sourceId)), request.now,
                                 request.settings).Err?
  {
    PublishedIff(observations, request);
    var outcome := OutcomeById(observations, request);
    if id :| id !in request.excluded && HasRow(observations, id) && outcome(id).Err? {
      var o :| o in observations && o.Id() == id;
    }
    if o :| && o in observations && NodeId(o.network, o.sourceId) !in request.excluded
            && Merge(OfNode(observations, NodeId(o.network, o.sourceId)), request.now, request.settings).Err? {
      assert HasRow(observations, o.Id()) && outcome(o.Id()).Err?;
    }
  }

  /** The list holds exactly the publishable nodes, each once, by the text of their ids. */
  lemma {:induction false} ListIsPublishable(observations: seq<Observation>, request: Request)
    requires NodeList(observations, request).Ok?
    ensures var list := NodeList(observations, request).value;
            && (forall node :: node in list <==> IsPublishable(observations, request, node))
            && (forall i, j :: 0 <= i < j < |list| ==> LexLess(list[i].id.Text(), list[j].id.Text()))
  {
    PublishedIff(observations, request);
    var list, outcome := NodeList(observations, request).value, OutcomeById(observations, request);
    forall node ensures node in list <==> IsPublishable(observations, request, node) {
      OutcomeIsPublishable(observations, request, node);
    }
    forall i, j | 0 <= i < j < |list| ensures LexLess(list[i].id.Text(), list[j].id.Text()) {
      StrictlyByText(list, i, j);
    }
  }

  lemma OutcomeIsPublishable(observations: seq<Observation>, request: Request, node: Node)
    ensures IsPublishable(observations, request, node)
       <==> node.id !in request.excluded && OutcomeById(observations, request)(node.id) == Ok(Some(node))
  {
  }

  lemma StrictlyByText(list: seq<Node>, i: nat, j: nat)
    requires StrictlyById(list) && i < j < |list|
    ensures LexLess(list[i].id.Text(), list[j].id.Text())
  {
    if list[i].id.Text() == list[j].id.Text() {
      IdTextIsUnambiguous(list[i].id, list[j].id);
    }
  }
}
