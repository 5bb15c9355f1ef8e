/** The experiment by municipality and province (`experiment_report.py`). */
module TerritorialReport {
  import opened Basics
  import opened Ordering
  import opened Texts
  import opened Segments
  import opened Territories
  import opened ExperimentReport
  import C = Classification
  import ES = ExperimentStore

  const LEVEL: string := "municipality"
  const NO_PROVINCE: string := "Sen provincia"

  /** What the report reads from a published node. */
  datatype Node = Node(longName: Option<string>, shortName: Option<string>, latitude: Option<real>,
                       longitude: Option<real>, bits: Option<int>) {
    /** node.get("long_name") or node.get("short_name") */
    function Name(): Option<string> {
      if longName.Some? && longName.value != "" then longName else shortName
    }
  }

  /** The group an emitter falls in. */
  datatype Place = In(territory: Territory, exact: bool) | Ambiguous(candidates: seq<Territory>) | Outside
                 | Unlocated(published: bool)

  /** Everything that decides where emitters fall. */
  datatype Atlas = Atlas(nodes: map<string, Node>, index: seq<Territory>, tol: real) {
    ghost predicate Valid() {
      C.ValidIndex(index)
    }
  }

  predicate Located(atlas: Atlas, id: string) {
    id in atlas.nodes && atlas.nodes[id].latitude.Some? && atlas.nodes[id].longitude.Some?
  }

  ghost function PlaceOf(atlas: Atlas, id: string): Result<Place, C.Problem> {
    if !Located(atlas, id) then Ok(Unlocated(id in atlas.nodes))
    else
      var node := atlas.nodes[id];
      match C.Judge(atlas.index, Point(node.longitude.value, node.latitude.value), LEVEL, node.bits, atlas.tol)
      case Err(problem) => Err(problem)
      case Ok(verdict) =>
        match verdict.status
        case Exact => if verdict.exact.Some? then Ok(In(verdict.exact.value, true)) else Ok(Outside)
        case Compatible => if verdict.compatible != [] then Ok(In(verdict.compatible[0], false)) else Ok(Outside)
        case Ambiguous => Ok(Place.Ambiguous(verdict.compatible))
        case Outside => Ok(Place.Outside)
  }

  /** The place of an emitter that can be classified. */
  ghost function Placing(atlas: Atlas): string -> Place {
    (id: string) => if PlaceOf(atlas, id).Ok? then PlaceOf(atlas, id).value else Unlocated(false)
  }

  /** What is published of an emitter. */
  function Publishing(atlas: Atlas): string -> Option<Node> {
    (id: string) => if id in atlas.nodes then Some(atlas.nodes[id]) else None
  }

  /** The five ways to fall. */
  datatype Kind = IsExact | IsCompatible | IsAmbiguous | IsOutside | IsUnlocated

  function KindOf(place: Place): Kind {
    match place
    case In(_, exact) => if exact then IsExact else IsCompatible
    case Ambiguous(_) => IsAmbiguous
    case Outside => IsOutside
    case Unlocated(_) => IsUnlocated
  }

  ghost function OfKind(done: set<string>, place: string -> Place, kind: Kind): set<string> {
    set e | e in done && KindOf(place(e)) == kind
  }

  function ProvinceOf(t: Territory): string {
    if t.parent.Some? && t.parent.value != "" then t.parent.value else NO_PROVINCE
  }

  /** The municipality, the province, and the municipality of an exact or a compatible assignment. */
  function MunicipalityOf(place: Place): Option<string> {
    if place.In? then Some(place.territory.id) else None
  }

  function ProvinceNamed(place: Place): Option<string> {
    if place.In? then Some(ProvinceOf(place.territory)) else None
  }

  function ExactlyIn(place: Place): Option<string> {
    if place.In? && place.exact then Some(place.territory.id) else None
  }

  function CompatiblyIn(place: Place): Option<string> {
    if place.In? && !place.exact then Some(place.territory.id) else None
  }

  // ------------------------------------------------------------ sets of emitters by key

  type Groups = map<string, set<string>>

  ghost function Members(done: set<string>, place: string -> Place, key: Place -> Option<string>,
                         k: string): set<string> {
    set e | e in done && key(place(e)) == Some(k)
  }

  /** The groups hold the emitters so far, each under its key; there is no empty group. */
  ghost predicate GroupedBy(groups: Groups, done: set<string>, place: string -> Place, key: Place -> Option<string>) {
    forall k :: && (k in groups <==> Members(done, place, key, k) != {})
                && (k in groups ==> groups[k] == Members(done, place, key, k))
  }

  /** `setdefault(key, set()).add(id)`, if there is a key */
  function Filed(groups: Groups, key: Option<string>, id: string): Groups {
    if key.None? then groups
    else groups[key.value := (if key.value in groups then groups[key.value] else {}) + {id}]
  }

  lemma FiledGroups(groups: Groups, done: set<string>, place: string -> Place, key: Place -> Option<string>, id: string)
    requires GroupedBy(groups, done, place, key)
    ensures GroupedBy(Filed(groups, key(place(id)), id), done + {id}, place, key)
  {
    var after := Filed(groups, key(place(id)), id);
    forall k
      ensures (k in after <==> Members(done + {id}, place, key, k) != {})
              && (k in after ==> after[k] == Members(done + {id}, place, key, k))
    {
      assert k in groups <==> Members(done, place, key, k) != {};
      if key(place(id)) == Some(k) {
        assert id in Members(done + {id}, place, key, k);
        assert Members(done + {id}, place, key, k) == Members(done, place, key, k) + {id};
      } else {
        assert Members(done + {id}, place, key, k) == Members(done, place, key, k);
      }
    }
  }

  // ------------------------------------------------------------ emitters without a municipality

  /** An emitter that several municipalities claim, with what is published of it. */
  datatype Claimed = Claimed(id: string, node: Option<Node>, candidates: seq<Territory>)

  /** An emitter that no municipality claims, with what is published of it, and why. */
  datatype Unclaimed = Unclaimed(id: string, reason: string, node: Option<Node>)

  function ReasonOf(place: Place): string {
    if !place.Unlocated? then "outside_galicia"
    else if place.published then "missing_position"
    else "node_not_published"
  }

  predicate Nowhere(place: Place) {
    place.Outside? || place.Unlocated?
  }

  /** Appended to the list of the claimed if it is one. */
  function ClaimedBy(id: string, place: Place, node: Option<Node>): seq<Claimed> {
    if place.Ambiguous? then [Claimed(id, node, place.candidates)] else []
  }

  function UnclaimedBy(id: string, place: Place, node: Option<Node>): seq<Unclaimed> {
    if Nowhere(place) then [Unclaimed(id, ReasonOf(place), node)] else []
  }

  ghost function AllClaimed(ids: seq<string>, place: string -> Place, node: string -> Option<Node>): seq<Claimed> {
    if ids == [] then []
    else
      var front, last := ids[..|ids| - 1], ids[|ids| - 1];
      AllClaimed(front, place, node) + ClaimedBy(last, place(last), node(last))
  }

  ghost function AllUnclaimed(ids: seq<string>, place: string -> Place, node: string -> Option<Node>): seq<Unclaimed> {
    if ids == [] then []
    else
      var front, last := ids[..|ids| - 1], ids[|ids| - 1];
      AllUnclaimed(front, place, node) + UnclaimedBy(last, place(last), node(last))
  }

  /** item["name"] or item["from_id"] */
  function Label(node: Option<Node>, id: string): string {
    if node.Some? && node.value.Name().Some? && node.value.Name().value != "" then node.value.Name().value else id
  }

  /** The sort key (-candidates, label). */
  predicate ClaimedLe(a: Claimed, b: Claimed) {
    || |a.candidates| > |b.candidates|
    || (|a.candidates| == |b.candidates| && LexLe(Label(a.node, a.id), Label(b.node, b.id)))
  }

  /** The sort key (reason, label). */
  predicate UnclaimedLe(a: Unclaimed, b: Unclaimed) {
    || LexLess(a.reason, b.reason)
    || (a.reason == b.reason && LexLe(Label(a.node, a.id), Label(b.node, b.id)))
  }

  /** The two lists hold the emitters of their kinds, each once with its record, in order. */
  ghost predicate ListsUnassigned(claimed: seq<Claimed>, unclaimed: seq<Unclaimed>, all: set<string>,
                                  place: string -> Place, node: string -> Option<Node>) {
    && Sorted(claimed, ClaimedLe) && Distinct(claimed)
    && Sorted(unclaimed, UnclaimedLe) && Distinct(unclaimed)
    && (forall x :: x in claimed <==> x.id in all && ClaimedBy(x.id, place(x.id), node(x.id)) == [x])
    && (forall x :: x in unclaimed <==> x.id in all && UnclaimedBy(x.id, place(x.id), node(x.id)) == [x])
  }

  /** Appending what is not yet there. */
  lemma AppendOne<T>(xs: seq<T>, ys: seq<T>)
    requires Distinct(xs) && |ys| <= 1 && forall y :: y in ys ==> y !in xs
    ensures Distinct(xs + ys)
    ensures forall z :: z in xs + ys <==> z in xs || z in ys
  {
    forall i, j | 0 <= i < j < |xs + ys| ensures (xs + ys)[i] != (xs + ys)[j] {
      if j == |xs| {
        assert xs[i] in xs && ys[0] in ys;
      }
    }
  }

  lemma {:induction false} ClaimedAreListed(ids: seq<string>, place: string -> Place, node: string -> Option<Node>)
    requires Distinct(ids)
    ensures Distinct(AllClaimed(ids, place, node))
    ensures forall x :: x in AllClaimed(ids, place, node)
                   <==> x.id in ids && ClaimedBy(x.id, place(x.id), node(x.id)) == [x]
  {
    if ids != [] {
      var front, last := ids[..|ids| - 1], ids[|ids| - 1];
      ClaimedAreListed(front, place, node);
      assert ids == front + [last] && last !in front;
      AppendOne(AllClaimed(front, place, node), ClaimedBy(last, place(last), node(last)));
    }
  }

  lemma KindGrows(done: set<string>, place: string -> Place, id: string, kind: Kind)
    requires id !in done
    ensures |OfKind(done + {id}, place, kind)|
         == |OfKind(done, place, kind)| + if KindOf(place(id)) == kind then 1 else 0
  {
    OneMoreOfKind(done, place, id, kind);
  }

  lemma {:induction false} LastOnLists(ids: seq<string>, place: string -> Place, node: string -> Option<Node>)
    requires ids != []
    ensures var front, kind := ids[..|ids| - 1], KindOf(place(ids[|ids| - 1]));
            && |AllClaimed(ids, place, node)|
               == |AllClaimed(front, place, node)| + (if kind == IsAmbiguous then 1 else 0)
            && |AllUnclaimed(ids, place, node)|
               == |AllUnclaimed(front, place, node)| + (if kind == IsOutside || kind == IsUnlocated then 1 else 0)
  {
  }

  lemma {:induction false} ClaimedAreCounted(ids: seq<string>, place: string -> Place, node: string -> Option<Node>)
    requires Distinct(ids)
    ensures |AllClaimed(ids, place, node)| == |OfKind(IdsIn(ids), place, IsAmbiguous)|
  {
    if ids == [] {
      assert IdsIn(ids) == {};
    } else {
      var front, last := ids[..|ids| - 1], ids[|ids| - 1];
      ClaimedAreCounted(front, place, node);
      assert ids == front + [last] && last !in front;
      assert IdsIn(ids) == IdsIn(front) + {last};
      LastOnLists(ids, place, node);
      KindGrows(IdsIn(front), place, last, IsAmbiguous);
    }
  }

  lemma {:induction false} UnclaimedAreListed(ids: seq<string>, place: string -> Place, node: string -> Option<Node>)
    requires Distinct(ids)
    ensures Distinct(AllUnclaimed(ids, place, node))
    ensures forall x :: x in AllUnclaimed(ids, place, node)
                   <==> x.id in ids && UnclaimedBy(x.id, place(x.id), node(x.id)) == [x]
  {
    if ids != [] {
      var front, last := ids[..|ids| - 1], ids[|ids| - 1];
      UnclaimedAreListed(front, place, node);
      assert ids == front + [last] && last !in front;
      AppendOne(AllUnclaimed(front, place, node), UnclaimedBy(last, place(last), node(last)));
    }
  }

  lemma {:induction false} UnclaimedAreCounted(ids: seq<string>, place: string -> Place, node: string -> Option<Node>)
    requires Distinct(ids)
    ensures |AllUnclaimed(ids, place, node)|
         == |OfKind(IdsIn(ids), place, IsOutside)| + |OfKind(IdsIn(ids), place, IsUnlocated)|
  {
    if ids == [] {
      assert IdsIn(ids) == {};
    } else {
      var front, last := ids[..|ids| - 1], ids[|ids| - 1];
      UnclaimedAreCounted(front, place, node);
      assert ids == front + [last] && last !in front;
      assert IdsIn(ids) == IdsIn(front) + {last};
      LastOnLists(ids, place, node);
      KindGrows(IdsIn(front), place, last, IsOutside);
      KindGrows(IdsIn(front), place, last, IsUnlocated);
    }
  }

  lemma ListOrders()
    ensures TotalPreorder(ClaimedLe) && TotalPreorder(UnclaimedLe)
  {
    LexIsTotalOrder();
    forall a: Unclaimed, b: Unclaimed ensures UnclaimedLe(a, b) || UnclaimedLe(b, a) {
      LexTrichotomy(a.reason, b.reason);
    }
    forall a: Unclaimed, b: Unclaimed, c: Unclaimed | UnclaimedLe(a, b) && UnclaimedLe(b, c) ensures UnclaimedLe(a, c) {
      if LexLess(a.reason, b.reason) && LexLess(b.reason, c.reason) {
        LexTransitive(a.reason, b.reason, c.reason);
      }
    }
  }

  /** The lists of the report, from those of the loop. */
  lemma {:induction false} SortedListsUnassigned(ids: seq<string>, place: string -> Place, node: string -> Option<Node>)
    requires Distinct(ids)
    ensures var claimed := StableSort(AllClaimed(ids, place, node), ClaimedLe);
            var unclaimed := StableSort(AllUnclaimed(ids, place, node), UnclaimedLe);
            && ListsUnassigned(claimed, unclaimed, IdsIn(ids), place, node)
            && |claimed| == |OfKind(IdsIn(ids), place, IsAmbiguous)|
            && |unclaimed| == |OfKind(IdsIn(ids), place, IsOutside)| + |OfKind(IdsIn(ids), place, IsUnlocated)|
  {
    var claimed, unclaimed := AllClaimed(ids, place, node), AllUnclaimed(ids, place, node);
    ClaimedAreListed(ids, place, node);
    ClaimedAreCounted(ids, place, node);
    UnclaimedAreListed(ids, place, node);
    UnclaimedAreCounted(ids, place, node);
    ListOrders();
    SortSorts(claimed, ClaimedLe);
    SortSorts(unclaimed, UnclaimedLe);
    SameElements(claimed, StableSort(claimed, ClaimedLe));
    SameElements(unclaimed, StableSort(unclaimed, UnclaimedLe));
    PermutationStaysDistinct(claimed, StableSort(claimed, ClaimedLe));
    PermutationStaysDistinct(unclaimed, StableSort(unclaimed, UnclaimedLe));
  }

  // ------------------------------------------------------------ the loop over the emitters

  datatype Assignment = Assignment(exact: set<string>, compatible: set<string>, ambiguous: set<string>,
                                   outside: set<string>, unlocated: set<string>, municipalities: Groups,
                                   exactIn: Groups, compatibleIn: Groups, provinces: Groups,
                                   territories: map<string, Territory>,
                                   claimed: seq<Claimed>, unclaimed: seq<Unclaimed>)

  /** Every emitter so far is in the one set and the groups of its place. */
  ghost predicate Assigns(a: Assignment, done: set<string>, place: string -> Place) {
    AssignsSets(a, done, place) && AssignsGroups(a, done, place)
  }

  ghost predicate AssignsSets(a: Assignment, done: set<string>, place: string -> Place) {
    && a.exact == OfKind(done, place, IsExact) && a.compatible == OfKind(done, place, IsCompatible)
    && a.ambiguous == OfKind(done, place, IsAmbiguous) && a.outside == OfKind(done, place, IsOutside)
    && a.unlocated == OfKind(done, place, IsUnlocated)
  }

  ghost predicate AssignsGroups(a: Assignment, done: set<string>, place: string -> Place) {
    && GroupedBy(a.municipalities, done, place, MunicipalityOf) && GroupedBy(a.provinces, done, place, ProvinceNamed)
    && GroupedBy(a.exactIn, done, place, ExactlyIn) && GroupedBy(a.compatibleIn, done, place, CompatiblyIn)
    && a.territories.Keys == a.municipalities.Keys
    && forall k :: k in a.territories ==> a.territories[k].id == k
  }

  /** The body of the loop for an emitter whose place is decided. */
  function PlacedIn(a: Assignment, id: string, place: Place, node: Option<Node>): Assignment {
    Assignment(if KindOf(place) == IsExact then a.exact + {id} else a.exact,
               if KindOf(place) == IsCompatible then a.compatible + {id} else a.compatible,
               if KindOf(place) == IsAmbiguous then a.ambiguous + {id} else a.ambiguous,
               if KindOf(place) == IsOutside then a.outside + {id} else a.outside,
               if KindOf(place) == IsUnlocated then a.unlocated + {id} else a.unlocated,
               Filed(a.municipalities, MunicipalityOf(place), id), Filed(a.exactIn, ExactlyIn(place), id),
               Filed(a.compatibleIn, CompatiblyIn(place), id), Filed(a.provinces, ProvinceNamed(place), id),
               if place.In? then a.territories[place.territory.id := place.territory] else a.territories,
               a.claimed + ClaimedBy(id, place, node), a.unclaimed + UnclaimedBy(id, place, node))
  }

  lemma OneMoreEmitter(a: Assignment, done: set<string>, place: string -> Place, id: string, node: Option<Node>)
    requires Assigns(a, done, place)
    ensures Assigns(PlacedIn(a, id, place(id), node), done + {id}, place)
  {
    OneMoreInSets(a, done, place, id, node);
    OneMoreInGroups(a, done, place, id, node);
  }

  lemma OneMoreOfKind(done: set<string>, place: string -> Place, id: string, kind: Kind)
    ensures OfKind(done + {id}, place, kind)
         == OfKind(done, place, kind) + if KindOf(place(id)) == kind then {id} else {}
  {
  }

  lemma OneMoreInSets(a: Assignment, done: set<string>, place: string -> Place, id: string, node: Option<Node>)
    requires AssignsSets(a, done, place)
    ensures AssignsSets(PlacedIn(a, id, place(id), node), done + {id}, place)
  {
    OneMoreOfKind(done, place, id, IsExact);
    OneMoreOfKind(done, place, id, IsCompatible);
    OneMoreOfKind(done, place, id, IsAmbiguous);
    OneMoreOfKind(done, place, id, IsOutside);
    OneMoreOfKind(done, place, id, IsUnlocated);
  }

  lemma OneMoreInGroups(a: Assignment, done: set<string>, place: string -> Place, id: string, node: Option<Node>)
    requires AssignsGroups(a, done, place)
    ensures AssignsGroups(PlacedIn(a, id, place(id), node), done + {id}, place)
  {
    FiledGroups(a.municipalities, done, place, MunicipalityOf, id);
    FiledGroups(a.provinces, done, place, ProvinceNamed, id);
    FiledGroups(a.exactIn, done, place, ExactlyIn, id);
    FiledGroups(a.compatibleIn, done, place, CompatiblyIn, id);
    TerritoriesFollow(a, id, place(id), node);
  }

  lemma TerritoriesFollow(a: Assignment, id: string, place: Place, node: Option<Node>)
    requires a.territories.Keys == a.municipalities.Keys
    requires forall k :: k in a.territories ==> a.territories[k].id == k
    ensures var after := PlacedIn(a, id, place, node);
            && after.territories.Keys == after.municipalities.Keys
            && forall k :: k in after.territories ==> after.territories[k].id == k
  {
  }

  /** Where the loop puts one emitter. */
  method Locate(atlas: Atlas, id: string) returns (r: Result<Place, C.Problem>)
    requires atlas.Valid()
    ensures r == PlaceOf(atlas, id)
  {
    if id !in atlas.nodes {
      return Ok(Unlocated(false));
    }
    var node := atlas.nodes[id];
    if node.latitude.None? || node.longitude.None? {
      return Ok(Unlocated(true));
    }
    var verdict := C.Classify(atlas.index, Some(Point(node.longitude.value, node.latitude.value)), LEVEL, node.bits,
                              atlas.tol);
    if verdict.Err? {
      return Err(verdict.error);
    }
    match verdict.value.status {
      case Exact =>
        assert verdict.value.exact.Some?;
        return Ok(In(verdict.value.exact.value, true));
      case Compatible =>
        assert |verdict.value.compatible| == 1;
        return Ok(In(verdict.value.compatible[0], false));
      case Ambiguous => return Ok(Place.Ambiguous(verdict.value.compatible));
      case Outside => return Ok(Place.Outside);
    }
  }

  /** `_experiment_emitter_ids` */
  method EmitterIds(rows: seq<Row>) returns (ids: seq<string>)
    ensures Distinct(ids) && Sorted(ids, LexLe)
    ensures forall id :: id in ids <==> id in Emitters(rows)
  {
    var rest := Emitters(rows);
    var listing: seq<string> := [];
    while rest != {}
      invariant rest <= Emitters(rows) && Distinct(listing)
      invariant forall id :: id in listing <==> id in Emitters(rows) && id !in rest
      decreases rest
    {
      var id :| id in rest;
      rest := rest - {id};
      listing := listing + [id];
    }
    ids := StableSort(listing, LexLe);
    LexIsTotalOrder();
    SortSorts(listing, LexLe);
    SameElements(ids, listing);
    PermutationStaysDistinct(listing, ids);
  }

  function IdsIn(ids: seq<string>): set<string> {
    set id | id in ids
  }

  const NOBODY := Assignment({}, {}, {}, {}, {}, map[], map[], map[], map[], map[], [], [])

  /** The lists of the loop so far. */
  ghost predicate Lists(a: Assignment, ids: seq<string>, atlas: Atlas) {
    && a.claimed == AllClaimed(ids, Placing(atlas), Publishing(atlas))
    && a.unclaimed == AllUnclaimed(ids, Placing(atlas), Publishing(atlas))
  }

  lemma {:induction false} OneMoreListed(a: Assignment, ids: seq<string>, atlas: Atlas, id: string)
    requires Lists(a, ids, atlas)
    ensures Lists(PlacedIn(a, id, Placing(atlas)(id), Publishing(atlas)(id)), ids + [id], atlas)
  {
    assert (ids + [id])[..|ids|] == ids;
  }

  method AssignEmitters(atlas: Atlas, ids: seq<string>) returns (r: Result<Assignment, C.Problem>)
    requires atlas.Valid()
    ensures r.Ok? ==> Assigns(r.value, IdsIn(ids), Placing(atlas)) && Lists(r.value, ids, atlas)
    ensures r.Ok? ==> forall id :: id in ids ==> PlaceOf(atlas, id).Ok?
    ensures r.Err? ==> exists id :: id in ids && PlaceOf(atlas, id) == Err(r.error)
  {
    var a := NOBODY;
    NobodyAssigned(Placing(atlas));
    for i := 0 to |ids|
      invariant Assigns(a, IdsIn(ids[..i]), Placing(atlas)) && Lists(a, ids[..i], atlas)
      invariant forall id :: id in ids[..i] ==> PlaceOf(atlas, id).Ok?
    {
      var place := Locate(atlas, ids[i]);
      if place.Err? {
        return Err(place.error);
      }
      assert place.value == Placing(atlas)(ids[i]);
      assert ids[..i + 1] == ids[..i] + [ids[i]];
      assert IdsIn(ids[..i + 1]) == IdsIn(ids[..i]) + {ids[i]};
      var node := if ids[i] in atlas.nodes then Some(atlas.nodes[ids[i]]) else None;
      OneMoreEmitter(a, IdsIn(ids[..i]), Placing(atlas), ids[i], node);
      OneMoreListed(a, ids[..i], atlas, ids[i]);
      a := PlacedIn(a, ids[i], place.value, node);
    }
    assert ids[..|ids|] == ids;
    return Ok(a);
  }

  lemma NobodyAssigned(place: string -> Place)
    ensures Assigns(NOBODY, IdsIn([]), place)
  {
  }

  // ------------------------------------------------------------ the report

  /** One group of the report: its key and the summary of its emitters. */
  datatype Entry = Entry(key: string, metrics: Summary)

  datatype Municipality = Municipality(territory: Territory, exactNodes: nat, compatibleNodes: nat, metrics: Summary)

  datatype Report = Report(emitters: nat, placed: nat, exact: nat, compatible: nat, ambiguous: nat, outside: nat,
                           unlocated: nat, packets: nat, assignedPackets: nat, assignedPercent: real,
                           provinces: seq<Entry>, municipalities: seq<Municipality>,
                           ambiguousMetrics: Summary, outsideMetrics: Summary,
                           claimed: seq<Claimed>, unclaimed: seq<Unclaimed>)

  function Entries(ms: seq<Municipality>): seq<Entry> {
    seq(|ms|, i requires 0 <= i < |ms| => Entry(ms[i].territory.id, ms[i].metrics))
  }

  predicate KeysDiffer(entries: seq<Entry>) {
    forall i, j :: 0 <= i < j < |entries| ==> entries[i].key != entries[j].key
  }

  /** The summary of the rows of some emitters. */
  predicate SummarizesOnly(s: Summary, table: seq<Row>, q: Query, ids: set<string>) {
    Summarizes(s, Selected(table, q.(ids := Some(ids))))
  }

  /** One entry for each group of emitters, with its summary. */
  ghost predicate ListsGroups(entries: seq<Entry>, table: seq<Row>, q: Query, all: set<string>, place: string -> Place,
                              key: Place -> Option<string>) {
    && KeysDiffer(entries)
    && (forall x :: x in entries ==> Members(all, place, key, x.key) != {}
                                     && SummarizesOnly(x.metrics, table, q, Members(all, place, key, x.key)))
    && forall e :: e in all && key(place(e)).Some? ==> exists x :: x in entries && x.key == key(place(e)).value
  }

  ghost function Placed(all: set<string>, place: string -> Place): set<string> {
    OfKind(all, place, IsExact) + OfKind(all, place, IsCompatible)
  }

  ghost predicate CountsEmitters(r: Report, all: set<string>, place: string -> Place) {
    && r.emitters == |all| && r.placed == |Placed(all, place)|
    && r.exact == |OfKind(all, place, IsExact)| && r.compatible == |OfKind(all, place, IsCompatible)|
    && r.ambiguous == |OfKind(all, place, IsAmbiguous)| && r.outside == |OfKind(all, place, IsOutside)|
    && r.unlocated == |OfKind(all, place, IsUnlocated)|
  }

  ghost predicate CountsPackets(r: Report, table: seq<Row>, q: Query, all: set<string>, place: string -> Place) {
    && r.packets == |Selected(table, q)|
    && r.assignedPackets == |Selected(table, q.(ids := Some(Placed(all, place))))|
    && r.assignedPercent == Percent(r.assignedPackets, r.packets)
    && SummarizesOnly(r.ambiguousMetrics, table, q, OfKind(all, place, IsAmbiguous))
    && SummarizesOnly(r.outsideMetrics, table, q, OfKind(all, place, IsOutside) + OfKind(all, place, IsUnlocated))
  }

  function Percent(part: nat, whole: nat): real {
    if whole == 0 then 0.0 else part as real / whole as real * 100.0
  }

  ghost predicate CountsNodes(ms: seq<Municipality>, all: set<string>, place: string -> Place) {
    forall m :: m in ms ==> && m.exactNodes == |Members(all, place, ExactlyIn, m.territory.id)|
                            && m.compatibleNodes == |Members(all, place, CompatiblyIn, m.territory.id)|
  }

  /** What the report says of a table, for the emitters of the query and the places they fall in. */
  ghost predicate Reports(r: Report, table: seq<Row>, q: Query, place: string -> Place) {
    var all := Emitters(Selected(table, q));
    && CountsEmitters(r, all, place) && CountsPackets(r, table, q, all, place)
    && ListsGroups(r.provinces, table, q, all, place, ProvinceNamed)
    && ListsGroups(Entries(r.municipalities), table, q, all, place, MunicipalityOf)
    && CountsNodes(r.municipalities, all, place)
  }

  // ------------------------------------------------------------ rows of disjoint groups

  function RowsOf(rows: seq<Row>, ids: set<string>): seq<Row> {
    if rows == [] then []
    else
      var front, last := RowsOf(rows[..|rows| - 1], ids), rows[|rows| - 1];
      if last.fromId in ids then front + [last] else front
  }

  lemma {:induction false} RowsOfHas(rows: seq<Row>, ids: set<string>)
    ensures forall x :: x in RowsOf(rows, ids) <==> x in rows && x.fromId in ids
  {
    if rows != [] {
      RowsOfHas(rows[..|rows| - 1], ids);
      assert rows == rows[..|rows| - 1] + [rows[|rows| - 1]];
    }
  }

  /** The ids are what the query normalizes them to. */
  predicate Clean(ids: set<string>) {
    forall id :: id in ids ==> id != "" && Strip(id) == id
  }

  lemma CleanStays(ids: set<string>)
    requires Clean(ids)
    ensures Normalized(ids) == ids
  {
    forall id ensures id in Normalized(ids) <==> id in ids {
      if id in ids {
        assert Strip(id) == id;
      }
    }
  }

  lemma {:induction false} SelectedAmong(table: seq<Row>, q: Query, ids: set<string>)
    requires q.ids.None?
    ensures Selected(table, q.(ids := Some(ids))) == RowsOf(Selected(table, q), Normalized(ids))
  {
    if table != [] {
      var front, last := table[..|table| - 1], table[|table| - 1];
      SelectedAmong(front, q, ids);
      if q.Wants(last) {
        LastOfRows(Selected(front, q), last, Normalized(ids));
      }
    }
  }

  lemma {:induction false} LastOfRows(rows: seq<Row>, last: Row, ids: set<string>)
    ensures RowsOf(rows + [last], ids) == if last.fromId in ids then RowsOf(rows, ids) + [last] else RowsOf(rows, ids)
  {
    assert (rows + [last])[..|rows|] == rows;
  }

  lemma {:induction false} RowsSplit(rows: seq<Row>, a: set<string>, b: set<string>)
    requires a !! b
    ensures |RowsOf(rows, a + b)| == |RowsOf(rows, a)| + |RowsOf(rows, b)|
  {
    if rows != [] {
      RowsSplit(rows[..|rows| - 1], a, b);
    }
  }

  lemma {:induction false} RowsOfAll(rows: seq<Row>, ids: set<string>)
    requires forall r :: r in rows ==> r.fromId in ids
    ensures RowsOf(rows, ids) == rows
  {
    if rows != [] {
      assert rows[|rows| - 1] in rows;
      RowsOfAll(rows[..|rows| - 1], ids);
    }
  }

  lemma EmittersHold(rows: seq<Row>)
    ensures forall r :: r in rows ==> r.fromId in Emitters(rows)
  {
  }

  lemma {:induction false} EmittersOfRows(rows: seq<Row>, ids: set<string>)
    requires ids <= Emitters(rows)
    ensures Emitters(RowsOf(rows, ids)) == ids
  {
    RowsOfHas(rows, ids);
    forall id | id in ids ensures id in Emitters(RowsOf(rows, ids)) {
      var r :| r in rows && r.fromId == id;
      assert r in RowsOf(rows, ids);
    }
  }

  /** What a summary of clean emitters counts. */
  lemma {:induction false} CleanGroup(s: Summary, table: seq<Row>, q: Query, ids: set<string>)
    requires q.ids.None? && Clean(ids) && ids <= Emitters(Selected(table, q))
    requires SummarizesOnly(s, table, q, ids)
    ensures s.counters.packets == |RowsOf(Selected(table, q), ids)| && s.nodes == |ids|
  {
    CleanStays(ids);
    SelectedAmong(table, q, ids);
    TallyCounts(RowsOf(Selected(table, q), ids));
    EmittersOfRows(Selected(table, q), ids);
  }

  // ------------------------------------------------------------ sums over entries

  function PacketsIn(entries: seq<Entry>): nat {
    if entries == [] then 0 else PacketsIn(entries[..|entries| - 1]) + entries[|entries| - 1].metrics.counters.packets
  }

  function NodesIn(entries: seq<Entry>): nat {
    if entries == [] then 0 else NodesIn(entries[..|entries| - 1]) + entries[|entries| - 1].metrics.nodes
  }

  /** The emitters whose key is among the entries'. */
  ghost function Keyed(entries: seq<Entry>, all: set<string>, place: string -> Place,
                       key: Place -> Option<string>): set<string> {
    set e | e in all && key(place(e)).Some? && exists x :: x in entries && x.key == key(place(e)).value
  }

  lemma KeyedSplit(entries: seq<Entry>, all: set<string>, place: string -> Place, key: Place -> Option<string>)
    requires entries != [] && KeysDiffer(entries)
    ensures var front, last := entries[..|entries| - 1], entries[|entries| - 1];
            && KeysDiffer(front)
            && Keyed(entries, all, place, key) == Keyed(front, all, place, key) + Members(all, place, key, last.key)
            && Keyed(front, all, place, key) !! Members(all, place, key, last.key)
  {
    var front, last := entries[..|entries| - 1], entries[|entries| - 1];
    assert entries == front + [last];
    forall x | x in front ensures x.key != last.key {
      var i :| 0 <= i < |front| && front[i] == x;
      assert entries[i].key != entries[|entries| - 1].key;
    }
    assert last in entries;
  }

  lemma {:induction false} EntriesAddUp(entries: seq<Entry>, table: seq<Row>, q: Query, all: set<string>,
                                        place: string -> Place, key: Place -> Option<string>)
    requires q.ids.None? && Clean(all) && all == Emitters(Selected(table, q))
    requires KeysDiffer(entries)
    requires forall x :: x in entries ==> SummarizesOnly(x.metrics, table, q, Members(all, place, key, x.key))
    ensures PacketsIn(entries) == |RowsOf(Selected(table, q), Keyed(entries, all, place, key))|
    ensures NodesIn(entries) == |Keyed(entries, all, place, key)|
  {
    if entries == [] {
      assert Keyed(entries, all, place, key) == {};
      NoRows(Selected(table, q));
    } else {
      var front, last := entries[..|entries| - 1], entries[|entries| - 1];
      var members := Members(all, place, key, last.key);
      KeyedSplit(entries, all, place, key);
      EntriesAddUp(front, table, q, all, place, key);
      CleanGroup(last.metrics, table, q, members);
      RowsSplit(Selected(table, q), Keyed(front, all, place, key), members);
    }
  }

  lemma {:induction false} NoRows(rows: seq<Row>)
    ensures RowsOf(rows, {}) == []
  {
    if rows != [] {
      NoRows(rows[..|rows| - 1]);
    }
  }

  // ------------------------------------------------------------ conservation

  lemma KindsPartition(all: set<string>, place: string -> Place)
    ensures all == OfKind(all, place, IsExact) + OfKind(all, place, IsCompatible) + OfKind(all, place, IsAmbiguous)
                 + (OfKind(all, place, IsOutside) + OfKind(all, place, IsUnlocated))
    ensures OfKind(all, place, IsExact) !! OfKind(all, place, IsCompatible) !! OfKind(all, place, IsAmbiguous)
            !! OfKind(all, place, IsOutside) !! OfKind(all, place, IsUnlocated)
  {
  }

  /** Every group of the entries, together, is every assigned emitter. */
  lemma AllAssigned(entries: seq<Entry>, table: seq<Row>, q: Query, all: set<string>, place: string -> Place,
                    key: Place -> Option<string>)
    requires ListsGroups(entries, table, q, all, place, key)
    requires forall p: Place :: key(p).Some? <==> p.In?
    ensures Keyed(entries, all, place, key) == OfKind(all, place, IsExact) + OfKind(all, place, IsCompatible)
  {
  }

  /** Every emitter falls in exactly one of the five groups; the packets of the assigned, the ambiguous and
      the other emitters are all the packets; and packets and nodes summed over municipalities, and over
      provinces, are those of the assigned emitters. */
  lemma {:induction false} ReportAddsUp(r: Report, table: seq<Row>, q: Query, place: string -> Place)
    requires q.ids.None? && Clean(Emitters(Selected(table, q)))
    requires Reports(r, table, q, place)
    ensures r.exact + r.compatible + r.ambiguous + r.outside + r.unlocated == r.emitters
    ensures r.assignedPackets + r.ambiguousMetrics.counters.packets + r.outsideMetrics.counters.packets == r.packets
    ensures PacketsIn(Entries(r.municipalities)) == PacketsIn(r.provinces) == r.assignedPackets
    ensures NodesIn(Entries(r.municipalities)) == NodesIn(r.provinces) == r.placed == r.exact + r.compatible
  {
    var rows := Selected(table, q);
    var all := Emitters(rows);
    var exact, compatible := OfKind(all, place, IsExact), OfKind(all, place, IsCompatible);
    var ambiguous := OfKind(all, place, IsAmbiguous);
    var rest := OfKind(all, place, IsOutside) + OfKind(all, place, IsUnlocated);
    var placed := exact + compatible;
    KindsPartition(all, place);
    CleanGroup(r.ambiguousMetrics, table, q, ambiguous);
    CleanGroup(r.outsideMetrics, table, q, rest);
    CleanStays(placed);
    SelectedAmong(table, q, placed);
    RowsSplit(rows, placed, ambiguous);
    RowsSplit(rows, placed + ambiguous, rest);
    EmittersHold(rows);
    RowsOfAll(rows, all);
    assert all == placed + ambiguous + rest;
    EntriesAddUp(r.provinces, table, q, all, place, ProvinceNamed);
    AllAssigned(r.provinces, table, q, all, place, ProvinceNamed);
    EntriesAddUp(Entries(r.municipalities), table, q, all, place, MunicipalityOf);
    AllAssigned(Entries(r.municipalities), table, q, all, place, MunicipalityOf);
  }

  /** A summary limited to some emitters covers exactly their rows, whatever the emitters, if and only if
      no emitter id is blank or has blanks around it. */
  lemma {:induction false} SummariesCoverTheirEmittersIff(table: seq<Row>, q: Query)
    requires q.ids.None?
    ensures Clean(Emitters(Selected(table, q)))
       <==> forall ids :: ids <= Emitters(Selected(table, q)) ==>
              Selected(table, q.(ids := Some(ids))) == RowsOf(Selected(table, q), ids)
  {
    var rows := Selected(table, q);
    if Clean(Emitters(rows)) {
      forall ids | ids <= Emitters(rows) ensures Selected(table, q.(ids := Some(ids))) == RowsOf(rows, ids) {
        CleanStays(ids);
        SelectedAmong(table, q, ids);
      }
    } else {
      var id :| id in Emitters(rows) && (id == "" || Strip(id) != id);
      var r :| r in rows && r.fromId == id;
      RowsOfHas(rows, {id});
      assert r in RowsOf(rows, {id});
      assert r !in Selected(table, q.(ids := Some({id}))) by {
        StripOnce(id);
      }
      assert {id} <= Emitters(rows);
    }
  }

  /** The limited selections of three groups add up to the unlimited one. */
  predicate TotalsAgree(table: seq<Row>, q: Query, a: set<string>, b: set<string>, c: set<string>) {
    |Selected(table, q.(ids := Some(a)))| + |Selected(table, q.(ids := Some(b)))|
    + |Selected(table, q.(ids := Some(c)))|
    == |Selected(table, q)|
  }

  predicate Splits(all: set<string>, a: set<string>, b: set<string>, c: set<string>) {
    all == a + b + c && a !! b && a !! c && b !! c
  }

  /** The totals add up, however the emitters are divided into three groups, if and only if no emitter id
      is blank or has blanks around it. */
  lemma {:induction false} TotalsAgreeIff(table: seq<Row>, q: Query)
    requires q.ids.None?
    ensures Clean(Emitters(Selected(table, q)))
       <==> forall a, b, c :: Splits(Emitters(Selected(table, q)), a, b, c) ==> TotalsAgree(table, q, a, b, c)
  {
    var rows := Selected(table, q);
    var all := Emitters(rows);
    if Clean(all) {
      forall a, b, c | Splits(all, a, b, c) ensures TotalsAgree(table, q, a, b, c) {
        CleanSplit(table, q, a, b, c);
      }
    } else {
      OneGroupLoses(table, q);
      assert Splits(all, all, {}, {}) && !TotalsAgree(table, q, all, {}, {});
    }
  }

  /** The rows that a group counts after the groups before it have counted them. */
  function CountedAgain(rows: seq<Row>, a: set<string>, b: set<string>, c: set<string>): nat {
    |RowsOf(rows, Normalized(a) * Normalized(b))| + |RowsOf(rows, (Normalized(a) + Normalized(b)) * Normalized(c))|
  }

  /** The rows whose id is none that a group asks for. */
  function Uncounted(rows: seq<Row>, a: set<string>, b: set<string>, c: set<string>): nat {
    |RowsOf(rows, Emitters(rows) - (Normalized(a) + Normalized(b) + Normalized(c)))|
  }

  lemma {:induction false} RowsOverlap(rows: seq<Row>, a: set<string>, b: set<string>)
    ensures |RowsOf(rows, a)| + |RowsOf(rows, b)| == |RowsOf(rows, a + b)| + |RowsOf(rows, a * b)|
  {
    if rows != [] {
      RowsOverlap(rows[..|rows| - 1], a, b);
    }
  }

  lemma {:induction false} RowsWithout(rows: seq<Row>, ids: set<string>)
    ensures |RowsOf(rows, ids)| + |RowsOf(rows, Emitters(rows) - ids)| == |rows|
  {
    RowsSplit(rows, ids, Emitters(rows) - ids);
    EmittersHold(rows);
    RowsOfAll(rows, ids + (Emitters(rows) - ids));
  }

  /** Exactly when the totals of three groups agree: as many rows are counted again as are not counted. */
  lemma {:induction false} GroupTotalsAgreeIff(table: seq<Row>, q: Query, a: set<string>, b: set<string>,
                                               c: set<string>)
    requires q.ids.None?
    ensures TotalsAgree(table, q, a, b, c)
       <==> CountedAgain(Selected(table, q), a, b, c) == Uncounted(Selected(table, q), a, b, c)
  {
    var rows := Selected(table, q);
    SelectedAmong(table, q, a);
    SelectedAmong(table, q, b);
    SelectedAmong(table, q, c);
    RowsOverlap(rows, Normalized(a), Normalized(b));
    RowsOverlap(rows, Normalized(a) + Normalized(b), Normalized(c));
    RowsWithout(rows, Normalized(a) + Normalized(b) + Normalized(c));
  }

  /** Exactly when the packets of a report add up, for the division it makes, whatever the ids. */
  lemma {:induction false} ReportTotalsAgreeIff(r: Report, table: seq<Row>, q: Query, place: string -> Place)
    requires q.ids.None? && Reports(r, table, q, place)
    ensures var rows := Selected(table, q);
            var all := Emitters(rows);
            var placed, ambiguous := Placed(all, place), OfKind(all, place, IsAmbiguous);
            var rest := OfKind(all, place, IsOutside) + OfKind(all, place, IsUnlocated);
            (r.assignedPackets + r.ambiguousMetrics.counters.packets + r.outsideMetrics.counters.packets == r.packets)
            <==> CountedAgain(rows, placed, ambiguous, rest) == Uncounted(rows, placed, ambiguous, rest)
  {
    var all := Emitters(Selected(table, q));
    var ambiguous := OfKind(all, place, IsAmbiguous);
    var rest := OfKind(all, place, IsOutside) + OfKind(all, place, IsUnlocated);
    GroupTotalsAgreeIff(table, q, Placed(all, place), ambiguous, rest);
    TallyCounts(Selected(table, q.(ids := Some(ambiguous))));
    TallyCounts(Selected(table, q.(ids := Some(rest))));
  }

  lemma {:induction false} CleanSplit(table: seq<Row>, q: Query, a: set<string>, b: set<string>, c: set<string>)
    requires q.ids.None? && Splits(Emitters(Selected(table, q)), a, b, c) && Clean(a + b + c)
    ensures TotalsAgree(table, q, a, b, c)
  {
    var rows := Selected(table, q);
    CleanStays(a);
    CleanStays(b);
    CleanStays(c);
    SelectedAmong(table, q, a);
    SelectedAmong(table, q, b);
    SelectedAmong(table, q, c);
    RowsSplit(rows, a, b);
    RowsSplit(rows, a + b, c);
    EmittersHold(rows);
    RowsOfAll(rows, a + b + c);
  }

  /** An id with blanks is lost even when all emitters are asked for together. */
  lemma {:induction false} OneGroupLoses(table: seq<Row>, q: Query)
    requires q.ids.None? && !Clean(Emitters(Selected(table, q)))
    ensures |Selected(table, q.(ids := Some(Emitters(Selected(table, q)))))| < |Selected(table, q)|
    ensures Selected(table, q.(ids := Some({}))) == []
  {
    var rows := Selected(table, q);
    var all := Emitters(rows);
    var id :| id in all && (id == "" || Strip(id) != id);
    var r :| r in rows && r.fromId == id;
    SelectedAmong(table, q, all);
    SelectedAmong(table, q, {});
    assert Normalized({}) == {};
    NoRows(rows);
    forall other | other in Normalized(all) ensures other != id {
      var e :| e in all && Strip(e) == other && other != "";
      StripOnce(e);
    }
    FewerRows(rows, Normalized(all), r);
  }

  lemma {:induction false} FewerRows(rows: seq<Row>, ids: set<string>, r: Row)
    requires r in rows && r.fromId !in ids
    ensures |RowsOf(rows, ids)| < |rows|
  {
    var front, last := rows[..|rows| - 1], rows[|rows| - 1];
    assert rows == front + [last];
    if last.fromId in ids {
      FewerRows(front, ids, r);
    } else {
      NoMoreRows(front, ids);
    }
  }

  lemma {:induction false} NoMoreRows(rows: seq<Row>, ids: set<string>)
    ensures |RowsOf(rows, ids)| <= |rows|
  {
    if rows != [] {
      NoMoreRows(rows[..|rows| - 1], ids);
    }
  }

  // ------------------------------------------------------------ building the report

  /** The sort key (-packets, name) of provinces. */
  predicate ProvinceLe(a: Entry, b: Entry) {
    || a.metrics.counters.packets > b.metrics.counters.packets
    || (a.metrics.counters.packets == b.metrics.counters.packets && LexLe(a.key, b.key))
  }

  function ParentText(t: Territory): string {
    if t.parent.Some? then t.parent.value else ""
  }

  /** The sort key (-packets, province, name) of municipalities. */
  predicate MunicipalityLe(a: Municipality, b: Municipality) {
    || a.metrics.counters.packets > b.metrics.counters.packets
    || (a.metrics.counters.packets == b.metrics.counters.packets && (
        || LexLess(ParentText(a.territory), ParentText(b.territory))
        || (ParentText(a.territory) == ParentText(b.territory) && LexLe(a.territory.name, b.territory.name))))
  }

  lemma GroupOrders()
    ensures TotalPreorder(ProvinceLe) && TotalPreorder(MunicipalityLe)
  {
    LexIsTotalOrder();
    forall a: Municipality, b: Municipality ensures MunicipalityLe(a, b) || MunicipalityLe(b, a) {
      LexTrichotomy(ParentText(a.territory), ParentText(b.territory));
    }
    forall a: Municipality, b: Municipality, c: Municipality | MunicipalityLe(a, b) && MunicipalityLe(b, c)
      ensures MunicipalityLe(a, c)
    {
      if LexLess(ParentText(a.territory), ParentText(b.territory))
         && LexLess(ParentText(b.territory), ParentText(c.territory)) {
        LexTransitive(ParentText(a.territory), ParentText(b.territory), ParentText(c.territory));
      }
    }
  }

  method ListProvinces(table: seq<Row>, q: Query, groups: Groups) returns (entries: seq<Entry>)
    ensures KeysDiffer(entries)
    ensures forall k :: k in groups ==> exists x :: x in entries && x.key == k
    ensures forall x :: x in entries ==> x.key in groups && SummarizesOnly(x.metrics, table, q, groups[x.key])
  {
    entries := [];
    var rest := groups.Keys;
    while rest != {}
      invariant rest <= groups.Keys
      invariant forall k :: k in groups && k !in rest ==> exists x :: x in entries && x.key == k
      invariant forall x :: x in entries ==> x.key !in rest
      invariant forall x :: x in entries ==> x.key in groups && SummarizesOnly(x.metrics, table, q, groups[x.key])
      invariant KeysDiffer(entries)
      decreases rest
    {
      var k :| k in rest;
      rest := rest - {k};
      var metrics := ChannelSummary(table, q.(ids := Some(groups[k])));
      AddEntry(entries, Entry(k, metrics));
      entries := entries + [Entry(k, metrics)];
    }
  }

  method SummarizeProvinces(table: seq<Row>, q: Query, groups: Groups, ghost all: set<string>,
                            ghost place: string -> Place)
    returns (entries: seq<Entry>)
    requires GroupedBy(groups, all, place, ProvinceNamed)
    ensures ListsGroups(entries, table, q, all, place, ProvinceNamed) && Sorted(entries, ProvinceLe)
  {
    GroupOrders();
    var unsorted := ListProvinces(table, q, groups);
    entries := StableSort(unsorted, ProvinceLe);
    SortSorts(unsorted, ProvinceLe);
    SameElements(entries, unsorted);
    PermutedKeysDiffer(unsorted, entries);
    GroupsAreListed(entries, table, q, groups, all, place, ProvinceNamed);
  }

  lemma AddEntry(entries: seq<Entry>, x: Entry)
    requires KeysDiffer(entries) && forall y :: y in entries ==> y.key != x.key
    ensures KeysDiffer(entries + [x])
    ensures forall y :: y in entries + [x] <==> y in entries || y == x
  {
    forall i | 0 <= i < |entries| ensures entries[i].key != x.key {
      assert entries[i] in entries;
    }
  }

  lemma PermutedKeysDiffer(xs: seq<Entry>, ys: seq<Entry>)
    requires multiset(xs) == multiset(ys) && KeysDiffer(xs)
    ensures KeysDiffer(ys)
  {
    SameElements(xs, ys);
    PermutationStaysDistinct(xs, ys);
    forall i, j | 0 <= i < j < |ys| ensures ys[i].key != ys[j].key {
      assert ys[i] in xs && ys[j] in xs;
      var m :| 0 <= m < |xs| && xs[m] == ys[i];
      var n :| 0 <= n < |xs| && xs[n] == ys[j];
    }
  }

  lemma GroupsAreListed(entries: seq<Entry>, table: seq<Row>, q: Query, groups: Groups, all: set<string>,
                        place: string -> Place, key: Place -> Option<string>)
    requires GroupedBy(groups, all, place, key) && KeysDiffer(entries)
    requires forall k :: k in groups ==> exists x :: x in entries && x.key == k
    requires forall x :: x in entries ==> x.key in groups && SummarizesOnly(x.metrics, table, q, groups[x.key])
    ensures ListsGroups(entries, table, q, all, place, key)
  {
    forall e | e in all && key(place(e)).Some? ensures exists x :: x in entries && x.key == key(place(e)).value {
      assert e in Members(all, place, key, key(place(e)).value);
    }
  }

  function SizeOf(groups: Groups, k: string): nat {
    if k in groups then |groups[k]| else 0
  }

  /** A municipality's record says what the groups say. */
  predicate Records(m: Municipality, table: seq<Row>, q: Query, a: Assignment) {
    && m.territory.id in a.municipalities
    && SummarizesOnly(m.metrics, table, q, a.municipalities[m.territory.id])
    && m.exactNodes == SizeOf(a.exactIn, m.territory.id)
    && m.compatibleNodes == SizeOf(a.compatibleIn, m.territory.id)
  }

  method SummarizeMunicipality(table: seq<Row>, q: Query, a: Assignment, k: string) returns (m: Municipality)
    requires k in a.municipalities && k in a.territories && a.territories[k].id == k
    ensures Records(m, table, q, a) && m.territory.id == k
  {
    var metrics := ChannelSummary(table, q.(ids := Some(a.municipalities[k])));
    return Municipality(a.territories[k], SizeOf(a.exactIn, k), SizeOf(a.compatibleIn, k), metrics);
  }

  method ListMunicipalities(table: seq<Row>, q: Query, a: Assignment) returns (ms: seq<Municipality>)
    requires a.territories.Keys == a.municipalities.Keys && forall k :: k in a.territories ==> a.territories[k].id == k
    ensures IdsDiffer(ms)
    ensures forall k :: k in a.municipalities ==> exists m :: m in ms && m.territory.id == k
    ensures forall m :: m in ms ==> Records(m, table, q, a)
  {
    ms := [];
    var rest := a.municipalities.Keys;
    while rest != {}
      invariant rest <= a.municipalities.Keys
      invariant forall k :: k in a.municipalities && k !in rest ==> exists m :: m in ms && m.territory.id == k
      invariant forall m :: m in ms ==> m.territory.id !in rest
      invariant forall m :: m in ms ==> Records(m, table, q, a)
      invariant IdsDiffer(ms)
      decreases rest
    {
      var k :| k in rest;
      rest := rest - {k};
      var m := SummarizeMunicipality(table, q, a, k);
      AddMunicipality(ms, m);
      ms := ms + [m];
    }
  }

  method SummarizeMunicipalities(table: seq<Row>, q: Query, a: Assignment, ghost all: set<string>,
                                 ghost place: string -> Place)
    returns (ms: seq<Municipality>)
    requires AssignsGroups(a, all, place)
    ensures ListsGroups(Entries(ms), table, q, all, place, MunicipalityOf)
    ensures CountsNodes(ms, all, place) && Sorted(ms, MunicipalityLe)
  {
    var unsorted := ListMunicipalities(table, q, a);
    ms := StableSort(unsorted, MunicipalityLe);
    GroupOrders();
    SortSorts(unsorted, MunicipalityLe);
    SameElements(ms, unsorted);
    PermutedIdsDiffer(unsorted, ms);
    EntriesOfRecords(ms, table, q, a);
    GroupsAreListed(Entries(ms), table, q, a.municipalities, all, place, MunicipalityOf);
    NodesOfRecords(ms, table, q, a, all, place);
  }

  lemma NodesOfRecords(ms: seq<Municipality>, table: seq<Row>, q: Query, a: Assignment, all: set<string>,
                       place: string -> Place)
    requires GroupedBy(a.exactIn, all, place, ExactlyIn) && GroupedBy(a.compatibleIn, all, place, CompatiblyIn)
    requires forall m :: m in ms ==> Records(m, table, q, a)
    ensures CountsNodes(ms, all, place)
  {
    forall m | m in ms
      ensures m.exactNodes == |Members(all, place, ExactlyIn, m.territory.id)|
      ensures m.compatibleNodes == |Members(all, place, CompatiblyIn, m.territory.id)|
    {
      SizeIsMembers(a.exactIn, all, place, ExactlyIn, m.territory.id);
      SizeIsMembers(a.compatibleIn, all, place, CompatiblyIn, m.territory.id);
    }
  }

  predicate IdsDiffer(ms: seq<Municipality>) {
    forall i, j :: 0 <= i < j < |ms| ==> ms[i].territory.id != ms[j].territory.id
  }

  lemma AddMunicipality(ms: seq<Municipality>, m: Municipality)
    requires IdsDiffer(ms) && forall n :: n in ms ==> n.territory.id != m.territory.id
    ensures IdsDiffer(ms + [m])
    ensures forall n :: n in ms + [m] <==> n in ms || n == m
  {
    forall i | 0 <= i < |ms| ensures ms[i].territory.id != m.territory.id {
      assert ms[i] in ms;
    }
  }

  lemma PermutedIdsDiffer(xs: seq<Municipality>, ys: seq<Municipality>)
    requires multiset(xs) == multiset(ys) && IdsDiffer(xs)
    ensures IdsDiffer(ys)
  {
    SameElements(xs, ys);
    PermutationStaysDistinct(xs, ys);
    forall i, j | 0 <= i < j < |ys| ensures ys[i].territory.id != ys[j].territory.id {
      assert ys[i] in xs && ys[j] in xs;
      var m :| 0 <= m < |xs| && xs[m] == ys[i];
      var n :| 0 <= n < |xs| && xs[n] == ys[j];
    }
  }

  lemma EntriesOfRecords(ms: seq<Municipality>, table: seq<Row>, q: Query, a: Assignment)
    requires IdsDiffer(ms)
    requires forall k :: k in a.municipalities ==> exists m :: m in ms && m.territory.id == k
    requires forall m :: m in ms ==> Records(m, table, q, a)
    ensures KeysDiffer(Entries(ms))
    ensures forall k :: k in a.municipalities ==> exists x :: x in Entries(ms) && x.key == k
    ensures forall x :: x in Entries(ms)
                    ==> x.key in a.municipalities && SummarizesOnly(x.metrics, table, q, a.municipalities[x.key])
  {
    forall k | k in a.municipalities ensures exists x :: x in Entries(ms) && x.key == k {
      var m :| m in ms && m.territory.id == k;
      EntryOf(ms, m);
    }
    forall x | x in Entries(ms)
      ensures x.key in a.municipalities && SummarizesOnly(x.metrics, table, q, a.municipalities[x.key])
    {
      var m := RecordOf(ms, x);
      assert Records(m, table, q, a);
    }
  }

  lemma EntryOf(ms: seq<Municipality>, m: Municipality)
    requires m in ms
    ensures Entry(m.territory.id, m.metrics) in Entries(ms)
  {
    var i :| 0 <= i < |ms| && ms[i] == m;
    assert Entries(ms)[i] == Entry(m.territory.id, m.metrics);
  }

  lemma RecordOf(ms: seq<Municipality>, x: Entry) returns (m: Municipality)
    requires x in Entries(ms)
    ensures m in ms && x == Entry(m.territory.id, m.metrics)
  {
    var i :| 0 <= i < |Entries(ms)| && Entries(ms)[i] == x;
    m := ms[i];
  }

  lemma SizeIsMembers(groups: Groups, all: set<string>, place: string -> Place, key: Place -> Option<string>, k: string)
    requires GroupedBy(groups, all, place, key)
    ensures SizeOf(groups, k) == |Members(all, place, key, k)|
  {
    assert k in groups <==> Members(all, place, key, k) != {};
  }

  /** All that a report says: the counts and groups, the emitters without a municipality, and the order. */
  ghost predicate ReportsAll(r: Report, table: seq<Row>, q: Query, atlas: Atlas) {
    var all := Emitters(Selected(table, q));
    && Reports(r, table, q, Placing(atlas))
    && ListsUnassigned(r.claimed, r.unclaimed, all, Placing(atlas), Publishing(atlas))
    && |r.claimed| == r.ambiguous && |r.unclaimed| == r.outside + r.unlocated
    && Sorted(r.provinces, ProvinceLe) && Sorted(r.municipalities, MunicipalityLe)
  }

  /** `_territorial_channel_report` */
  method BuildReport(table: seq<Row>, q: Query, atlas: Atlas) returns (r: Result<Report, C.Problem>)
    requires atlas.Valid() && q.ids.None?
    ensures r.Ok? <==> forall e :: e in Emitters(Selected(table, q)) ==> PlaceOf(atlas, e).Ok?
    ensures r.Ok? ==> ReportsAll(r.value, table, q, atlas)
    ensures r.Err? ==> exists e :: e in Emitters(Selected(table, q)) && PlaceOf(atlas, e) == Err(r.error)
  {
    var rows := Selected(table, q);
    var ids := EmitterIds(rows);
    var assignment := AssignEmitters(atlas, ids);
    if assignment.Err? {
      return Err(assignment.error);
    }
    var a := assignment.value;
    assert IdsIn(ids) == Emitters(rows);
    var report := Compose(table, q, a, Emitters(rows), Placing(atlas));
    SortedListsUnassigned(ids, Placing(atlas), Publishing(atlas));
    return Ok(report);
  }

  method Compose(table: seq<Row>, q: Query, a: Assignment, all: set<string>, ghost place: string -> Place)
    returns (r: Report)
    requires q.ids.None? && all == Emitters(Selected(table, q))
    requires Assigns(a, all, place)
    ensures Reports(r, table, q, place)
    ensures Sorted(r.provinces, ProvinceLe) && Sorted(r.municipalities, MunicipalityLe)
    ensures r.claimed == StableSort(a.claimed, ClaimedLe) && r.unclaimed == StableSort(a.unclaimed, UnclaimedLe)
  {
    var municipalities := SummarizeMunicipalities(table, q, a, all, place);
    var provinces := SummarizeProvinces(table, q, a.provinces, all, place);
    var placed := a.exact + a.compatible;
    var total := ChannelSummary(table, q);
    var assignedSummary := ChannelSummary(table, q.(ids := Some(placed)));
    var ambiguousSummary := ChannelSummary(table, q.(ids := Some(a.ambiguous)));
    var outsideSummary := ChannelSummary(table, q.(ids := Some(a.outside + a.unlocated)));
    PacketsAreRows(total, Selected(table, q));
    PacketsAreRows(assignedSummary, Selected(table, q.(ids := Some(placed))));
    var packets, assignedPackets := total.counters.packets, assignedSummary.counters.packets;
    r := Report(|all|, |placed|, |a.exact|, |a.compatible|, |a.ambiguous|, |a.outside|, |a.unlocated|,
                packets, assignedPackets, Percent(assignedPackets, packets),
                provinces, municipalities, ambiguousSummary, outsideSummary,
                StableSort(a.claimed, ClaimedLe), StableSort(a.unclaimed, UnclaimedLe));
    assert CountsEmitters(r, all, place);
    assert CountsPackets(r, table, q, all, place);
  }

  lemma PacketsAreRows(s: Summary, rows: seq<Row>)
    requires Summarizes(s, rows)
    ensures s.counters.packets == |rows|
  {
    TallyCounts(rows);
  }

  // ------------------------------------------------------------ places and reports in plain terms

  /** Where an emitter falls: east is longitude and north is latitude; the exact municipality is the one that holds
      the position, the compatible one the only one near its cell. */
  lemma PlaceTells(atlas: Atlas, id: string, p: Point, t: Territory)
    requires atlas.Valid() && id in atlas.nodes
    requires atlas.nodes[id].longitude == Some(p.x) && atlas.nodes[id].latitude == Some(p.y)
    requires PlaceOf(atlas, id).Ok?
    ensures PlaceOf(atlas, id) == Ok(In(t, true)) <==> t in atlas.index && C.Holds(t, "municipality", p, atlas.tol)
    ensures PlaceOf(atlas, id) == Ok(In(t, false))
       <==> && NoneHolds(atlas, p) && t in atlas.index && IsNearCell(atlas, id, p, t)
            && forall u :: u in atlas.index && IsNearCell(atlas, id, p, u) ==> u == t
    ensures PlaceOf(atlas, id).value.Ambiguous? ==>
              && NoneHolds(atlas, p) && |PlaceOf(atlas, id).value.candidates| >= 2
              && forall u :: u in PlaceOf(atlas, id).value.candidates
                        <==> u in atlas.index && IsNearCell(atlas, id, p, u)
    ensures PlaceOf(atlas, id) == Ok(Outside)
       <==> NoneHolds(atlas, p) && forall u :: u in atlas.index ==> !IsNearCell(atlas, id, p, u)
    ensures !PlaceOf(atlas, id).value.Unlocated?
  {
    var bits := atlas.nodes[id].bits;
    var r := C.Judge(atlas.index, p, LEVEL, bits, atlas.tol);
    C.VerdictTells(atlas.index, p, LEVEL, bits, atlas.tol);
    var v := r.value;
    if v.exact.None? && bits.Some? {
      C.AtMostOne(atlas.index, C.NearTo(v.cell.value, LEVEL, atlas.tol));
      forall u ensures IsNearCell(atlas, id, p, u) <==> C.IsNear(u, LEVEL, v.cell.value, atlas.tol) {
      }
    }
  }

  predicate NoneHolds(atlas: Atlas, p: Point) {
    forall u :: u in atlas.index ==> !C.Holds(u, "municipality", p, atlas.tol)
  }

  /** The node gives the precision of its position, and the cell of that precision passes the municipality's test. */
  predicate IsNearCell(atlas: Atlas, id: string, p: Point, t: Territory)
    requires id in atlas.nodes
  {
    var bits := atlas.nodes[id].bits;
    bits.Some? && C.PrecisionCell(p, bits.value).Ok?
    && C.IsNear(t, "municipality", C.PrecisionCell(p, bits.value).value, atlas.tol)
  }

  /** An emitter without a published node or position is unlocated. */
  lemma UnlocatedTells(atlas: Atlas, id: string)
    ensures id !in atlas.nodes ==> PlaceOf(atlas, id) == Ok(Unlocated(false))
    ensures id in atlas.nodes && (atlas.nodes[id].latitude == None || atlas.nodes[id].longitude == None) ==>
              PlaceOf(atlas, id) == Ok(Unlocated(true))
  {
  }

  /** The province of a municipality; without one, "Sen provincia". */
  predicate IsProvince(place: Place, name: string) {
    place.In? && (|| (place.territory.parent == Some(name) && name != "")
                  || (place.territory.parent in [None, Some("")] && name == "Sen provincia"))
  }

  /** What is shown of an emitter in a list: its long name, else its short name, else its id. */
  predicate IsLabel(node: Option<Node>, id: string, shown: string) {
    match node
    case None => shown == id
    case Some(n) =>
      if n.longName.Some? && n.longName.value != "" then shown == n.longName.value
      else if n.shortName.Some? && n.shortName.value != "" then shown == n.shortName.value
      else shown == id
  }

  /** The counts of a report, by where its emitters fall. */
  ghost predicate TellsCounts(r: Report, all: set<string>, place: string -> Place) {
    && r.emitters == |all|
    && r.placed == |set e | e in all && place(e).In?|
    && r.exact == |set e | e in all && place(e).In? && place(e).exact|
    && r.compatible == |set e | e in all && place(e).In? && !place(e).exact|
    && r.ambiguous == |set e | e in all && place(e).Ambiguous?|
    && r.outside == |set e | e in all && place(e).Outside?|
    && r.unlocated == |set e | e in all && place(e).Unlocated?|
  }

  lemma CountsTell(r: Report, all: set<string>, place: string -> Place)
    requires CountsEmitters(r, all, place)
    ensures TellsCounts(r, all, place)
  {
    KindSets(all, place);
  }

  /** The share of the packets whose emitters fall in a municipality, in hundredths. */
  predicate TellsShare(r: Report) {
    if r.packets == 0 then r.assignedPercent == 0.0
    else r.assignedPercent * r.packets as real == 100.0 * r.assignedPackets as real
  }

  lemma ShareTells(r: Report)
    requires r.assignedPercent == Percent(r.assignedPackets, r.packets)
    ensures TellsShare(r)
  {
    if r.packets > 0 {
      PercentOf(r.assignedPackets, r.packets);
    }
  }

  lemma KindSets(all: set<string>, place: string -> Place)
    ensures Placed(all, place) == set e | e in all && place(e).In?
    ensures OfKind(all, place, IsExact) == set e | e in all && place(e).In? && place(e).exact
    ensures OfKind(all, place, IsCompatible) == set e | e in all && place(e).In? && !place(e).exact
    ensures OfKind(all, place, IsAmbiguous) == set e | e in all && place(e).Ambiguous?
    ensures OfKind(all, place, IsOutside) == set e | e in all && place(e).Outside?
    ensures OfKind(all, place, IsUnlocated) == set e | e in all && place(e).Unlocated?
  {
  }

  lemma PercentOf(part: nat, whole: nat)
    requires whole > 0
    ensures Percent(part, whole) * whole as real == 100.0 * part as real
  {
    Undivide(whole as real, part as real);
    var q := part as real / whole as real;
    assert q * 100.0 * whole as real == 100.0 * (q * whole as real);
  }

  lemma Undivide(n: real, x: real)
    requires n > 0.0
    ensures x / n * n == x
  {
  }

  /** The groups of a report: for each province and each municipality in which emitters fall, the summary of the
      rows of just these. */
  ghost predicate TellsProvinces(provinces: seq<Entry>, table: seq<Row>, q: Query, all: set<string>,
                                 place: string -> Place) {
    && (forall e, name :: e in all && IsProvince(place(e), name) ==> exists x :: x in provinces && x.key == name)
    && (forall x :: x in provinces ==> TellsProvince(x, table, q, all, place))
  }

  ghost predicate TellsProvince(x: Entry, table: seq<Row>, q: Query, all: set<string>, place: string -> Place) {
    && (exists e :: e in all && IsProvince(place(e), x.key))
    && SummarizesOnly(x.metrics, table, q, set e | e in all && IsProvince(place(e), x.key))
  }

  ghost predicate TellsMunicipalities(ms: seq<Municipality>, table: seq<Row>, q: Query, all: set<string>,
                                      place: string -> Place) {
    && (forall e :: e in all && place(e).In? ==> exists m :: m in ms && m.territory.id == place(e).territory.id)
    && (forall m :: m in ms ==> TellsMunicipality(m, table, q, all, place))
  }

  ghost predicate TellsMunicipality(m: Municipality, table: seq<Row>, q: Query, all: set<string>,
                                    place: string -> Place) {
    var id := m.territory.id;
    && (exists e :: e in all && place(e).In? && place(e).territory.id == id)
    && SummarizesOnly(m.metrics, table, q, set e | e in all && place(e).In? && place(e).territory.id == id)
    && m.exactNodes == |set e | e in all && place(e).In? && place(e).exact && place(e).territory.id == id|
    && m.compatibleNodes == |set e | e in all && place(e).In? && !place(e).exact && place(e).territory.id == id|
  }

  lemma ProvinceIff(place: Place, name: string)
    ensures IsProvince(place, name) <==> ProvinceNamed(place) == Some(name)
  {
  }

  lemma MunicipalityTells(m: Municipality, table: seq<Row>, q: Query, all: set<string>, place: string -> Place)
    requires Members(all, place, MunicipalityOf, m.territory.id) != {}
    requires SummarizesOnly(m.metrics, table, q, Members(all, place, MunicipalityOf, m.territory.id))
    requires m.exactNodes == |Members(all, place, ExactlyIn, m.territory.id)|
    requires m.compatibleNodes == |Members(all, place, CompatiblyIn, m.territory.id)|
    ensures TellsMunicipality(m, table, q, all, place)
  {
    MemberSets(all, place, m.territory.id);
    var e :| e in Members(all, place, MunicipalityOf, m.territory.id);
  }

  lemma MemberSets(all: set<string>, place: string -> Place, id: string)
    ensures Members(all, place, MunicipalityOf, id) == set e | e in all && place(e).In? && place(e).territory.id == id
    ensures Members(all, place, ExactlyIn, id)
         == set e | e in all && place(e).In? && place(e).exact && place(e).territory.id == id
    ensures Members(all, place, CompatiblyIn, id)
         == set e | e in all && place(e).In? && !place(e).exact && place(e).territory.id == id
  {
  }

  lemma ProvincesTell(provinces: seq<Entry>, table: seq<Row>, q: Query, all: set<string>, place: string -> Place)
    requires ListsGroups(provinces, table, q, all, place, ProvinceNamed)
    ensures TellsProvinces(provinces, table, q, all, place)
  {
    forall e, name | e in all && IsProvince(place(e), name) ensures exists x :: x in provinces && x.key == name {
      ProvinceIff(place(e), name);
    }
    forall x | x in provinces ensures TellsProvince(x, table, q, all, place) {
      ProvinceTells(x, table, q, all, place);
    }
  }

  lemma ProvinceTells(x: Entry, table: seq<Row>, q: Query, all: set<string>, place: string -> Place)
    requires Members(all, place, ProvinceNamed, x.key) != {}
    requires SummarizesOnly(x.metrics, table, q, Members(all, place, ProvinceNamed, x.key))
    ensures TellsProvince(x, table, q, all, place)
  {
    forall e ensures IsProvince(place(e), x.key) <==> ProvinceNamed(place(e)) == Some(x.key) {
      ProvinceIff(place(e), x.key);
    }
    assert Members(all, place, ProvinceNamed, x.key) == set e | e in all && IsProvince(place(e), x.key);
    var e :| e in Members(all, place, ProvinceNamed, x.key);
  }

  lemma MunicipalitiesTell(ms: seq<Municipality>, table: seq<Row>, q: Query, all: set<string>, place: string -> Place)
    requires ListsGroups(Entries(ms), table, q, all, place, MunicipalityOf) && CountsNodes(ms, all, place)
    ensures TellsMunicipalities(ms, table, q, all, place)
  {
    forall e | e in all && place(e).In? ensures exists m :: m in ms && m.territory.id == place(e).territory.id {
      assert MunicipalityOf(place(e)) == Some(place(e).territory.id);
      var x :| x in Entries(ms) && x.key == place(e).territory.id;
      var m := RecordOf(ms, x);
    }
    forall m | m in ms ensures TellsMunicipality(m, table, q, all, place) {
      EntryOf(ms, m);
      MunicipalityTells(m, table, q, all, place);
    }
  }

  /** The order of the lists: groups by falling number of packets, then by names; claimed emitters by falling number
      of candidates, unclaimed ones by reason, then by label. */
  ghost predicate TellsOrder(r: Report) {
    && (forall i, j :: 0 <= i < j < |r.provinces| ==> ProvinceOrder(r.provinces[i], r.provinces[j]))
    && (forall i, j :: 0 <= i < j < |r.municipalities| ==> MunicipalityOrder(r.municipalities[i], r.municipalities[j]))
    && (forall i, j :: 0 <= i < j < |r.claimed| ==> ClaimedOrder(r.claimed[i], r.claimed[j]))
    && (forall i, j :: 0 <= i < j < |r.unclaimed| ==> UnclaimedOrder(r.unclaimed[i], r.unclaimed[j]))
  }

  predicate ProvinceOrder(a: Entry, b: Entry) {
    && a.metrics.counters.packets >= b.metrics.counters.packets
    && (a.metrics.counters.packets == b.metrics.counters.packets ==> LexLe(a.key, b.key))
  }

  predicate MunicipalityOrder(a: Municipality, b: Municipality) {
    var province := (t: Territory) => if t.parent == None then "" else t.parent.value;
    && a.metrics.counters.packets >= b.metrics.counters.packets
    && (a.metrics.counters.packets == b.metrics.counters.packets
        ==> LexLe(province(a.territory), province(b.territory)))
    && (a.metrics.counters.packets == b.metrics.counters.packets && province(a.territory) == province(b.territory) ==>
          LexLe(a.territory.name, b.territory.name))
  }

  ghost predicate ClaimedOrder(a: Claimed, b: Claimed) {
    && |a.candidates| >= |b.candidates|
    && (|a.candidates| == |b.candidates| ==>
          forall x, y :: IsLabel(a.node, a.id, x) && IsLabel(b.node, b.id, y) ==> LexLe(x, y))
  }

  ghost predicate UnclaimedOrder(a: Unclaimed, b: Unclaimed) {
    && LexLe(a.reason, b.reason)
    && (a.reason == b.reason ==>
          forall x, y :: IsLabel(a.node, a.id, x) && IsLabel(b.node, b.id, y) ==> LexLe(x, y))
  }

  lemma OrderTells(r: Report)
    requires Sorted(r.provinces, ProvinceLe) && Sorted(r.municipalities, MunicipalityLe)
    requires Sorted(r.claimed, ClaimedLe) && Sorted(r.unclaimed, UnclaimedLe)
    ensures TellsOrder(r)
  {
    forall i, j | 0 <= i < j < |r.provinces| ensures ProvinceOrder(r.provinces[i], r.provinces[j]) {
      assert ProvinceLe(r.provinces[i], r.provinces[j]);
    }
    forall i, j | 0 <= i < j < |r.municipalities| ensures MunicipalityOrder(r.municipalities[i], r.municipalities[j]) {
      assert MunicipalityLe(r.municipalities[i], r.municipalities[j]);
      LexTrichotomy(ParentText(r.municipalities[i].territory), ParentText(r.municipalities[j].territory));
    }
    forall i, j | 0 <= i < j < |r.claimed| ensures ClaimedOrder(r.claimed[i], r.claimed[j]) {
      assert ClaimedLe(r.claimed[i], r.claimed[j]);
    }
    forall i, j | 0 <= i < j < |r.unclaimed| ensures UnclaimedOrder(r.unclaimed[i], r.unclaimed[j]) {
      assert UnclaimedLe(r.unclaimed[i], r.unclaimed[j]);
      LexTrichotomy(r.unclaimed[i].reason, r.unclaimed[j].reason);
    }
  }

  /** The emitters without a municipality: those that several claim, with these, and the others, with the reason. */
  ghost predicate TellsLists(r: Report, all: set<string>, place: string -> Place, node: string -> Option<Node>) {
    && (forall x :: x in r.claimed <==> && x.id in all && x.node == node(x.id)
                                        && place(x.id) == Place.Ambiguous(x.candidates))
    && (forall x :: x in r.unclaimed <==> && x.id in all && x.node == node(x.id)
                                          && (|| (place(x.id) == Outside && x.reason == "outside_galicia")
                                              || (place(x.id) == Unlocated(true) && x.reason == "missing_position")
                                              || (place(x.id) == Unlocated(false) && x.reason == "node_not_published")))
  }

  lemma ListsTell(r: Report, all: set<string>, place: string -> Place, node: string -> Option<Node>)
    requires ListsUnassigned(r.claimed, r.unclaimed, all, place, node)
    ensures TellsLists(r, all, place, node)
  {
    forall x: Claimed
      ensures ClaimedBy(x.id, place(x.id), node(x.id)) == [x]
         <==> x.node == node(x.id) && place(x.id) == Place.Ambiguous(x.candidates)
    {
      ClaimedIff(x, place(x.id), node(x.id));
    }
    forall x: Unclaimed
      ensures UnclaimedBy(x.id, place(x.id), node(x.id)) == [x]
         <==> && x.node == node(x.id)
              && (|| (place(x.id) == Outside && x.reason == "outside_galicia")
                  || (place(x.id) == Unlocated(true) && x.reason == "missing_position")
                  || (place(x.id) == Unlocated(false) && x.reason == "node_not_published"))
    {
      UnclaimedIff(x, place(x.id), node(x.id));
    }
  }

  lemma ClaimedIff(x: Claimed, place: Place, node: Option<Node>)
    ensures ClaimedBy(x.id, place, node) == [x] <==> x.node == node && place == Place.Ambiguous(x.candidates)
  {
    if ClaimedBy(x.id, place, node) == [x] {
      assert ClaimedBy(x.id, place, node)[0] == x;
    }
  }

  lemma UnclaimedIff(x: Unclaimed, place: Place, node: Option<Node>)
    ensures UnclaimedBy(x.id, place, node) == [x]
       <==> && x.node == node
            && (|| (place == Outside && x.reason == "outside_galicia")
                || (place == Unlocated(true) && x.reason == "missing_position")
                || (place == Unlocated(false) && x.reason == "node_not_published"))
  {
    if UnclaimedBy(x.id, place, node) == [x] {
      assert UnclaimedBy(x.id, place, node)[0] == x;
    }
  }

  /** All that a report says, in plain terms. */
  lemma {:induction false} ReportTells(r: Report, table: seq<Row>, q: Query, atlas: Atlas)
    requires ReportsAll(r, table, q, atlas)
    ensures var all, place := Emitters(Selected(table, q)), Placing(atlas);
            && TellsCounts(r, all, place) && r.packets == |Selected(table, q)| && TellsShare(r)
            && TellsProvinces(r.provinces, table, q, all, place)
            && TellsMunicipalities(r.municipalities, table, q, all, place)
            && TellsLists(r, all, place, Publishing(atlas)) && TellsOrder(r)
  {
    var all, place := Emitters(Selected(table, q)), Placing(atlas);
    CountsTell(r, all, place);
    ShareTells(r);
    ProvincesTell(r.provinces, table, q, all, place);
    MunicipalitiesTell(r.municipalities, table, q, all, place);
    ListsTell(r, all, place, Publishing(atlas));
    OrderTells(r);
  }
}
