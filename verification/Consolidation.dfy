/** Consolidating the observations of one node (`domain.py`), and the selection of the few rows
    that are enough for it (`storage.py`). */
module Consolidation {
  import opened Basics
  import opened Ordering

  datatype Source = MalhaPt | OzuloMap | MeshcoreMap | MeshcoreHub

  /** SOURCE_ORDER */
  function SourceOrder(s: Source): (n: nat)
    ensures n < 4
  {
    match s
    case MalhaPt => 0
    case OzuloMap => 1
    case MeshcoreMap => 2
    case MeshcoreHub => 3
  }

  const SOURCES: seq<Source> := [MalhaPt, OzuloMap, MeshcoreMap, MeshcoreHub]

  datatype Network = Meshtastic | MeshCore

  function NetworkName(n: Network): string {
    match n
    case Meshtastic => "meshtastic"
    case MeshCore => "meshcore"
  }

  /** A canonical node id: the text "network:source_id", kept as its two parts. */
  datatype NodeId = NodeId(network: Network, sourceId: string) {
    function Text(): string { NetworkName(network) + (":" + sourceId) }
  }

  lemma NetworksApart(a: NodeId, b: NodeId)
    requires a.network != b.network
    ensures a.Text() != b.Text()
  {
    assert a.Text()[4] != b.Text()[4];
  }

  /** The text of an id determines both parts, so nothing is lost by keeping them apart. */
  lemma IdTextIsUnambiguous(a: NodeId, b: NodeId)
    requires a.Text() == b.Text()
    ensures a == b
  {
    if a.network != b.network {
      NetworksApart(a, b);
    } else {
      var n := |NetworkName(a.network)| + 1;
      assert a.Text()[n..] == a.sourceId && b.Text()[n..] == b.sourceId;
    }
  }

  /** The nullable columns that are consolidated one by one. */
  datatype Field =
    | ShortName | LongName | Hardware | Role | NodeType | IsObserver
    | BatteryPercent | VoltageV | ChannelUtilizationPercent | AirUtilTxPercent | SnrDb | RssiDbm
    | Channel | Firmware | HopsAway | MqttGateway | FrequencyMhz | BandwidthKhz | SpreadingFactor | CodingRate

  /** _PUBLICATION_SCALAR_FIELDS, METRIC_KEYS and RADIO_KEYS */
  const SCALAR_FIELDS: seq<Field> := [ShortName, LongName, Hardware, Role, NodeType, IsObserver]
  const METRIC_KEYS: seq<Field> :=
    [BatteryPercent, VoltageV, ChannelUtilizationPercent, AirUtilTxPercent, SnrDb, RssiDbm]
  const RADIO_KEYS: seq<Field> :=
    [Channel, Firmware, HopsAway, MqttGateway, FrequencyMhz, BandwidthKhz, SpreadingFactor, CodingRate]
  const FIELDS: seq<Field> := SCALAR_FIELDS + METRIC_KEYS + RADIO_KEYS

  datatype Value = Text(text: string) | Flag(flag: bool) | Number(number: real)

  /** The position columns are all null or all present. */
  datatype Position = Position(latitude: real, longitude: real, altitude: Option<real>,
                               precisionBits: Option<int>, updatedAt: int)

  datatype Observation = Observation(source: Source, network: Network, sourceId: string, observedAt: int,
                                     firstSeen: Option<int>, values: map<Field, Value>,
                                     position: Option<Position>) {
    function Id(): NodeId { NodeId(network, sourceId) }

    /** `first_seen or observed_at` */
    function Seen(): int { if firstSeen.Some? then firstSeen.value else observedAt }
  }

  /** The sort key (observed_at, SOURCE_ORDER[source]). */
  predicate NoLater(a: Observation, b: Observation) {
    a.observedAt < b.observedAt || (a.observedAt == b.observedAt && SourceOrder(a.source) <= SourceOrder(b.source))
  }

  lemma NoLaterIsPreorder()
    ensures TotalPreorder(NoLater)
  {
  }

  // ------------------------------------------------------------ choosing one row

  /** One reason to look at a row of the ordered history. */
  datatype Pick = Latest | LatestOf(source: Source) | EarliestSeen | NewestPosition | LatestValue(field: Field)

  predicate Eligible(p: Pick, o: Observation) {
    match p
    case Latest => true
    case LatestOf(s) => o.source == s
    case EarliestSeen => true
    case NewestPosition => o.position.Some?
    case LatestValue(f) => f in o.values
  }

  /** A later eligible row replaces an earlier one: always for the last-row picks; only when strictly
      better for the earliest first sighting and the newest position. */
  predicate Improves(p: Pick, later: Observation, earlier: Observation)
    requires Eligible(p, later) && Eligible(p, earlier)
  {
    match p
    case Latest => true
    case LatestOf(_) => true
    case EarliestSeen => later.Seen() < earlier.Seen()
    case NewestPosition => PositionNewer(later, earlier)
    case LatestValue(_) => true
  }

  /** Strict order of (position_updated_at, observed_at). */
  predicate PositionNewer(a: Observation, b: Observation)
    requires a.position.Some? && b.position.Some?
  {
    || a.position.value.updatedAt > b.position.value.updatedAt
    || (a.position.value.updatedAt == b.position.value.updatedAt && a.observedAt > b.observedAt)
  }

  /** The row a pick settles on, reading the rows in order. */
  function Choice(p: Pick, xs: seq<Observation>): (r: Option<nat>)
    ensures r.Some? ==> r.value < |xs| && Eligible(p, xs[r.value])
  {
    if xs == [] then None
    else
      var n := |xs| - 1;
      var best := Choice(p, xs[..n]);
      if Eligible(p, xs[n]) && (best.None? || Improves(p, xs[n], xs[best.value])) then Some(n) else best
  }

  /** What makes row i the right one, whatever way it was found. */
  ghost predicate Best(p: Pick, xs: seq<Observation>, i: nat) {
    && i < |xs| && Eligible(p, xs[i])
    && (forall j :: 0 <= j < i && Eligible(p, xs[j]) ==> Improves(p, xs[i], xs[j]))
    && (forall j :: i < j < |xs| && Eligible(p, xs[j]) ==> !Improves(p, xs[j], xs[i]))
  }

  lemma {:induction false} ChoiceIsBest(p: Pick, xs: seq<Observation>)
    ensures Choice(p, xs).Some? ==> Best(p, xs, Choice(p, xs).value)
    ensures Choice(p, xs).None? ==> forall j :: 0 <= j < |xs| ==> !Eligible(p, xs[j])
  {
    if xs != [] {
      var n := |xs| - 1;
      ChoiceIsBest(p, xs[..n]);
      forall j | 0 <= j < n && Choice(p, xs[..n]).None? ensures !Eligible(p, xs[j]) {
        assert xs[..n][j] == xs[j];
      }
      var best := Choice(p, xs[..n]);
      if best.Some? {
        var b := best.value;
        forall j | 0 <= j < n && Eligible(p, xs[j])
          ensures j < b ==> Improves(p, xs[b], xs[j])
          ensures j > b ==> !Improves(p, xs[j], xs[b])
        {
          assert xs[..n][j] == xs[j];
        }
      }
    }
  }

  lemma BestIsUnique(p: Pick, xs: seq<Observation>, i: nat, j: nat)
    requires Best(p, xs, i) && Best(p, xs, j)
    ensures i == j
  {
  }

  /** A row chosen by some definition that meets `Best` is the row of `Choice`. */
  lemma {:induction false} BestIsChoice(p: Pick, xs: seq<Observation>, i: nat)
    requires Best(p, xs, i)
    ensures Choice(p, xs) == Some(i)
  {
    ChoiceIsBest(p, xs);
    if Choice(p, xs).Some? {
      BestIsUnique(p, xs, i, Choice(p, xs).value);
    }
  }

  // ------------------------------------------------------------ keeping some rows

  /** The rows at the given indexes, in order. */
  ghost function Keep(xs: seq<Observation>, keep: set<nat>): seq<Observation> {
    if xs == [] then []
    else
      var n := |xs| - 1;
      Keep(xs[..n], keep) + (if n in keep then [xs[n]] else [])
  }

  /** The kept indexes below n, ascending. */
  ghost function Kept(n: nat, keep: set<nat>): seq<nat> {
    if n == 0 then [] else Kept(n - 1, keep) + (if n - 1 in keep then [n - 1] else [])
  }

  lemma {:induction false} KeptProperties(n: nat, keep: set<nat>)
    ensures forall i :: 0 <= i < |Kept(n, keep)| ==> Kept(n, keep)[i] < n && Kept(n, keep)[i] in keep
    ensures forall i, j :: 0 <= i < j < |Kept(n, keep)| ==> Kept(n, keep)[i] < Kept(n, keep)[j]
  {
    if n > 0 {
      KeptProperties(n - 1, keep);
    }
  }

  /** Where a kept index is. */
  lemma {:induction false} KeptIndex(n: nat, keep: set<nat>, k: nat) returns (i: nat)
    requires k < n && k in keep
    ensures i < |Kept(n, keep)| && Kept(n, keep)[i] == k
  {
    if k == n - 1 {
      i := |Kept(n - 1, keep)|;
    } else {
      i := KeptIndex(n - 1, keep, k);
    }
  }

  lemma {:induction false} KeepByIndex(xs: seq<Observation>, keep: set<nat>)
    ensures var ks := Kept(|xs|, keep);
            |Keep(xs, keep)| == |ks| && forall i :: 0 <= i < |ks| ==> ks[i] < |xs| && Keep(xs, keep)[i] == xs[ks[i]]
  {
    if xs != [] {
      KeepByIndex(xs[..|xs| - 1], keep);
    }
  }

  /** A pick settles on the same row after other rows are dropped. */
  lemma {:induction false} BestAmongKept(p: Pick, xs: seq<Observation>, keep: set<nat>, i: nat)
    requires i < |Kept(|xs|, keep)|
    requires Best(p, xs, Kept(|xs|, keep)[i])
    ensures Best(p, Keep(xs, keep), i)
  {
    KeepByIndex(xs, keep);
    KeptProperties(|xs|, keep);
  }

  /** The row a pick settles on, as a value. */
  function Chosen(p: Pick, xs: seq<Observation>): (r: Option<Observation>)
    ensures r.Some? ==> Eligible(p, r.value)
  {
    var i := Choice(p, xs);
    if i.Some? then Some(xs[i.value]) else None
  }

  /** Keeping the chosen row keeps the choice. */
  lemma {:induction false} ChosenSurvives(p: Pick, xs: seq<Observation>, keep: set<nat>)
    requires Choice(p, xs).Some? ==> Choice(p, xs).value in keep
    ensures Chosen(p, Keep(xs, keep)) == Chosen(p, xs)
  {
    ChoiceIsBest(p, xs);
    KeepByIndex(xs, keep);
    KeptProperties(|xs|, keep);
    if Choice(p, xs).Some? {
      var i := KeptIndex(|xs|, keep, Choice(p, xs).value);
      BestAmongKept(p, xs, keep, i);
      BestIsChoice(p, Keep(xs, keep), i);
    } else {
      ChoiceIsBest(p, Keep(xs, keep));
    }
  }

  // ------------------------------------------------------------ the selection

  ghost predicate IsChoice(i: nat, ordered: seq<Observation>) {
    exists p :: Choice(p, ordered) == Some(i)
  }

  /** The indexes the selection retains: those some pick settles on. */
  ghost function Selected(ordered: seq<Observation>): set<nat> {
    set i: nat | i < |ordered| && IsChoice(i, ordered)
  }

  /** Why a row of the ordered history is kept: it is the last one, or the last of its source, the first of those
      seen first, the first of those with the newest position, or the last with a value of some field. */
  ghost predicate HasReason(ordered: seq<Observation>, i: nat)
    requires i < |ordered|
  {
    || i == |ordered| - 1
    || (forall j :: i < j < |ordered| ==> ordered[j].source != ordered[i].source)
    || SeenFirst(ordered, i)
    || PositionLast(ordered, i)
    || exists f: Field :: f in ordered[i].values && forall j :: i < j < |ordered| ==> f !in ordered[j].values
  }

  ghost predicate SeenFirst(ordered: seq<Observation>, i: nat)
    requires i < |ordered|
  {
    forall j :: 0 <= j < |ordered| ==>
      var mine := if ordered[i].firstSeen.Some? then ordered[i].firstSeen.value else ordered[i].observedAt;
      var other := if ordered[j].firstSeen.Some? then ordered[j].firstSeen.value else ordered[j].observedAt;
      if j < i then mine < other else mine <= other
  }

  ghost predicate PositionLast(ordered: seq<Observation>, i: nat)
    requires i < |ordered|
  {
    && ordered[i].position.Some?
    && forall j :: 0 <= j < |ordered| && ordered[j].position.Some? ==>
         var mine, other := ordered[i].position.value.updatedAt, ordered[j].position.value.updatedAt;
         || mine > other
         || (mine == other && ordered[i].observedAt > ordered[j].observedAt)
         || (mine == other && ordered[i].observedAt == ordered[j].observedAt && i <= j)
  }

  /** The selection keeps exactly the rows that have such a reason. */
  lemma {:induction false} SelectedIff(ordered: seq<Observation>, i: nat)
    requires i < |ordered|
    ensures i in Selected(ordered) <==> HasReason(ordered, i)
  {
    if p :| Choice(p, ordered) == Some(i) {
      ChoiceIsBest(p, ordered);
      match p
      case Latest => assert i < |ordered| - 1 ==> Eligible(Latest, ordered[|ordered| - 1]);
      case LatestOf(s) => assert forall j :: i < j < |ordered| ==> !Eligible(p, ordered[j]);
      case EarliestSeen => assert SeenFirst(ordered, i);
      case NewestPosition => assert PositionLast(ordered, i);
      case LatestValue(f) => assert forall j :: i < j < |ordered| ==> !Eligible(p, ordered[j]);
    }
    if HasReason(ordered, i) {
      ReasonIsBest(ordered, i);
      var p :| Best(p, ordered, i);
      BestIsChoice(p, ordered, i);
    }
  }

  lemma ReasonIsBest(ordered: seq<Observation>, i: nat)
    requires i < |ordered| && HasReason(ordered, i)
    ensures exists p :: Best(p, ordered, i)
  {
    if i == |ordered| - 1 {
      assert Best(Latest, ordered, i);
    } else if forall j :: i < j < |ordered| ==> ordered[j].source != ordered[i].source {
      assert Best(LatestOf(ordered[i].source), ordered, i);
    } else if SeenFirst(ordered, i) {
      assert Best(EarliestSeen, ordered, i);
    } else if PositionLast(ordered, i) {
      assert Best(NewestPosition, ordered, i);
    } else {
      var f: Field :| f in ordered[i].values && forall j :: i < j < |ordered| ==> f !in ordered[j].values;
      assert Best(LatestValue(f), ordered, i);
    }
  }

  ghost predicate Covered(p: Pick, ordered: seq<Observation>, selected: set<nat>) {
    Choice(p, ordered).Some? ==> Choice(p, ordered).value in selected
  }

  lemma SelectedCovers(p: Pick, ordered: seq<Observation>)
    ensures Covered(p, ordered, Selected(ordered))
  {
    if Choice(p, ordered).Some? {
      assert IsChoice(Choice(p, ordered).value, ordered);
    }
  }

  lemma {:induction false} LatestIsLatestOfItsSource(ordered: seq<Observation>)
    requires ordered != []
    ensures Choice(Latest, ordered) == Some(|ordered| - 1)
    ensures Choice(LatestOf(ordered[|ordered| - 1].source), ordered) == Some(|ordered| - 1)
  {
  }

  /** The place of a field in FIELDS. */
  function FieldNumber(f: Field): (i: nat)
    ensures i < |FIELDS| && FIELDS[i] == f
  {
    match f
    case ShortName => 0 case LongName => 1 case Hardware => 2 case Role => 3 case NodeType => 4
    case IsObserver => 5 case BatteryPercent => 6 case VoltageV => 7 case ChannelUtilizationPercent => 8
    case AirUtilTxPercent => 9 case SnrDb => 10 case RssiDbm => 11 case Channel => 12 case Firmware => 13
    case HopsAway => 14 case MqttGateway => 15 case FrequencyMhz => 16 case BandwidthKhz => 17
    case SpreadingFactor => 18 case CodingRate => 19
  }

  datatype MergeError = NoObservations | DifferentNodes | DifferentNetworks | InvalidSettings

  predicate OneNode(xs: seq<Observation>) {
    forall o :: o in xs ==> o.Id() == xs[0].Id()
  }

  /** The rows `_select_publication_observations` retains. */
  ghost function Select(received: seq<Observation>): Result<seq<Observation>, MergeError> {
    if !OneNode(received) then Err(DifferentNodes)
    else
      var ordered := StableSort(received, NoLater);
      Ok(Keep(ordered, Selected(ordered)))
  }

  /** `latest_by_source`: overwritten while reading the rows in order. */
  method LatestBySource(ordered: seq<Observation>) returns (latest: map<Source, nat>)
    ensures forall s :: s in latest <==> Choice(LatestOf(s), ordered).Some?
    ensures forall s :: s in latest ==> Choice(LatestOf(s), ordered) == Some(latest[s])
  {
    latest := map[];
    for i := 0 to |ordered|
      invariant forall s :: s in latest <==> Choice(LatestOf(s), ordered[..i]).Some?
      invariant forall s :: s in latest ==> Choice(LatestOf(s), ordered[..i]) == Some(latest[s])
    {
      assert ordered[..i + 1][..i] == ordered[..i];
      latest := latest[ordered[i].source := i];
    }
    assert ordered[..|ordered|] == ordered;
  }

  /** The first row with the smallest `first_seen or observed_at`. */
  method EarliestIndex(ordered: seq<Observation>) returns (best: nat)
    requires ordered != []
    ensures Choice(EarliestSeen, ordered) == Some(best)
  {
    best := 0;
    assert ordered[..1] == [ordered[0]];
    for i := 1 to |ordered|
      invariant best < i
      invariant Choice(EarliestSeen, ordered[..i]) == Some(best)
    {
      assert ordered[..i + 1][..i] == ordered[..i];
      if ordered[i].Seen() < ordered[best].Seen() {
        best := i;
      }
    }
    assert ordered[..|ordered|] == ordered;
  }

  /** The first row with the greatest (position_updated_at, observed_at) among those with a position. */
  method NewestPositionIndex(ordered: seq<Observation>) returns (best: Option<nat>)
    ensures best == Choice(NewestPosition, ordered)
  {
    best := None;
    var key: Option<(int, int)> := None;
    for i := 0 to |ordered|
      invariant best == Choice(NewestPosition, ordered[..i])
      invariant key == if best.None? then None
                       else Some((ordered[best.value].position.value.updatedAt, ordered[best.value].observedAt))
    {
      assert ordered[..i + 1][..i] == ordered[..i];
      if ordered[i].position.None? {
        continue;
      }
      var candidate := (ordered[i].position.value.updatedAt, ordered[i].observedAt);
      if key.None? || candidate.0 > key.value.0 || (candidate.0 == key.value.0 && candidate.1 > key.value.1) {
        best := Some(i);
        key := Some(candidate);
      }
    }
    assert ordered[..|ordered|] == ordered;
  }

  /** The last row with a value for the field, searched backwards. */
  method LatestValueIndex(ordered: seq<Observation>, field: Field) returns (best: Option<nat>)
    ensures best == Choice(LatestValue(field), ordered)
  {
    for i := |ordered| downto 0
      invariant forall j :: i <= j < |ordered| ==> field !in ordered[j].values
    {
      if field in ordered[i].values {
        BestIsChoice(LatestValue(field), ordered, i);
        return Some(i);
      }
    }
    ChoiceIsBest(LatestValue(field), ordered);
    return None;
  }

  /** Every retained index is some pick's choice. */
  ghost predicate Sound(ordered: seq<Observation>, selected: set<nat>) {
    forall i :: i in selected ==> IsChoice(i, ordered)
  }

  lemma {:induction false} SourcesCovered(ordered: seq<Observation>, latest: map<Source, nat>)
    requires forall s :: s in latest <==> Choice(LatestOf(s), ordered).Some?
    requires forall s :: s in latest ==> Choice(LatestOf(s), ordered) == Some(latest[s])
    ensures Sound(ordered, latest.Values)
    ensures forall s :: Covered(LatestOf(s), ordered, latest.Values)
  {
    forall s ensures Covered(LatestOf(s), ordered, latest.Values) {
      if s in latest { assert latest[s] in latest.Values; }
    }
    forall i | i in latest.Values ensures IsChoice(i, ordered) {
      var s :| s in latest && latest[s] == i;
      assert Choice(LatestOf(s), ordered) == Some(i);
    }
  }

  lemma CoveredByMore(p: Pick, ordered: seq<Observation>, few: set<nat>, many: set<nat>)
    requires Covered(p, ordered, few) && few <= many
    ensures Covered(p, ordered, many)
  {
  }

  /** `selected_indexes` before the field loops. */
  method RowPicks(ordered: seq<Observation>) returns (selected: set<nat>)
    requires ordered != []
    ensures Sound(ordered, selected)
    ensures forall p: Pick :: !p.LatestValue? ==> Covered(p, ordered, selected)
  {
    LatestIsLatestOfItsSource(ordered);
    var latest := LatestBySource(ordered);
    SourcesCovered(ordered, latest);
    var first := EarliestIndex(ordered);
    var position := NewestPositionIndex(ordered);
    selected := {|ordered| - 1} + latest.Values + {first} + (if position.Some? then {position.value} else {});
    assert IsChoice(|ordered| - 1, ordered) && IsChoice(first, ordered);
    forall p: Pick | !p.LatestValue? ensures Covered(p, ordered, selected) {
      if p.LatestOf? {
        CoveredByMore(p, ordered, latest.Values, selected);
      }
    }
  }

  /** The index set `selected_indexes`, grown pick by pick. */
  method SelectedIndexes(ordered: seq<Observation>) returns (selected: set<nat>)
    requires ordered != []
    ensures selected == Selected(ordered)
  {
    selected := RowPicks(ordered);
    for k := 0 to |FIELDS|
      invariant Sound(ordered, selected) && CoversUntil(ordered, selected, k)
    {
      var i := LatestValueIndex(ordered, FIELDS[k]);
      OneMoreField(ordered, selected, k);
      if i.Some? {
        selected := selected + {i.value};
      }
    }
    CoveredIsSelected(ordered, selected);
  }

  /** Every pick but those of the later fields is covered. */
  ghost predicate CoversUntil(ordered: seq<Observation>, selected: set<nat>, k: nat) {
    forall p: Pick :: (p.LatestValue? ==> FieldNumber(p.field) < k) ==> Covered(p, ordered, selected)
  }

  ghost function WithChoice(selected: set<nat>, i: Option<nat>): set<nat> {
    if i.Some? then selected + {i.value} else selected
  }

  lemma {:induction false} OneMoreField(ordered: seq<Observation>, selected: set<nat>, k: nat)
    requires k < |FIELDS| && Sound(ordered, selected) && CoversUntil(ordered, selected, k)
    ensures var more := WithChoice(selected, Choice(LatestValue(FIELDS[k]), ordered));
            Sound(ordered, more) && CoversUntil(ordered, more, k + 1)
  {
    var field := LatestValue(FIELDS[k]);
    var more := WithChoice(selected, Choice(field, ordered));
    FieldNumberOf(k);
    forall i | i in more ensures IsChoice(i, ordered) {
      assert i in selected || Choice(field, ordered) == Some(i);
    }
    forall p: Pick | p.LatestValue? ==> FieldNumber(p.field) < k + 1 ensures Covered(p, ordered, more) {
      if p != field {
        assert Covered(p, ordered, selected);
      }
    }
  }

  lemma CoveredIsSelected(ordered: seq<Observation>, selected: set<nat>)
    requires Sound(ordered, selected)
    requires forall p :: Covered(p, ordered, selected)
    ensures selected == Selected(ordered)
  {
    forall i | i in selected ensures i in Selected(ordered) {
      var p :| Choice(p, ordered) == Some(i);
    }
    forall i | i in Selected(ordered) ensures i in selected {
      var p :| Choice(p, ordered) == Some(i);
      assert Covered(p, ordered, selected);
    }
  }

  method KeepRows(ordered: seq<Observation>, selected: set<nat>) returns (kept: seq<Observation>)
    ensures kept == Keep(ordered, selected)
  {
    kept := [];
    for i := 0 to |ordered|
      invariant kept == Keep(ordered[..i], selected)
    {
      assert ordered[..i + 1][..i] == ordered[..i];
      if i in selected {
        kept := kept + [ordered[i]];
      }
    }
    assert ordered[..|ordered|] == ordered;
  }

  /** `_select_publication_observations` */
  method SelectPublicationObservations(received: seq<Observation>) returns (r: Result<seq<Observation>, MergeError>)
    ensures r == Select(received)
  {
    if received == [] {
      return Ok([]);
    }
    if exists o | o in received :: o.Id() != received[0].Id() {
      return Err(DifferentNodes);
    }
    var ordered := StableSort(received, NoLater);
    SameElements(received, ordered);
    var selected := SelectedIndexes(ordered);
    var kept := KeepRows(ordered, selected);
    return Ok(kept);
  }

  // ------------------------------------------------------------ the consolidated node

  datatype Settings = Settings(activeHours: int, recentDays: int, historicalDays: int) {
    predicate Valid() {
      activeHours >= 1 && recentDays >= 1 && historicalDays >= recentDays
    }
  }

  datatype Temporal = Active | Recent | Historical

  /** `classify_temporal_status`: None for an expired node.  Times are in seconds. */
  function ClassifyTemporalStatus(lastSeen: int, now: int, settings: Settings): Result<Option<Temporal>, MergeError> {
    if !settings.Valid() then Err(InvalidSettings)
    else
      var age := if now - lastSeen < 0 then 0 else now - lastSeen;
      if age <= settings.activeHours * 3600 then Ok(Some(Active))
      else if age <= settings.recentDays * 86400 then Ok(Some(Recent))
      else if age <= settings.historicalDays * 86400 then Ok(Some(Historical))
      else Ok(None)
  }

  /** The published node.  A field without a value is null. */
  datatype Node = Node(id: NodeId, network: Network,
                       sources: seq<Source>, sourceIds: map<Source, string>, sourceLastSeen: map<Source, int>,
                       values: map<Field, Value>, position: Option<Position>,
                       firstSeen: int, lastSeen: int, status: Temporal)

  /** The node as determined by the row each pick settles on. */
  ghost function NodeOf(ordered: seq<Observation>, status: Temporal): Node
    requires ordered != []
  {
    SomethingChosen(ordered);
    var last := Chosen(Latest, ordered).value;
    var newest := Chosen(NewestPosition, ordered);
    Node(last.Id(), last.network,
         SourcesOf(ordered, SOURCES), SourceIds(ordered), SourceTimes(ordered), FieldsOf(ordered),
         if newest.Some? then newest.value.position else None,
         Chosen(EarliestSeen, ordered).value.Seen(), last.observedAt, status)
  }

  ghost function SourceIds(ordered: seq<Observation>): map<Source, string> {
    map s: Source | Chosen(LatestOf(s), ordered).Some? :: Chosen(LatestOf(s), ordered).value.sourceId
  }

  ghost function SourceTimes(ordered: seq<Observation>): map<Source, int> {
    map s: Source | Chosen(LatestOf(s), ordered).Some? :: Chosen(LatestOf(s), ordered).value.observedAt
  }

  /** The value of a field in the last row that has one. */
  ghost function FieldValue(ordered: seq<Observation>, f: Field): Option<Value> {
    var row := Chosen(LatestValue(f), ordered);
    if row.Some? then Some(row.value.values[f]) else None
  }

  ghost function FieldsOf(ordered: seq<Observation>): map<Field, Value> {
    map f: Field | FieldValue(ordered, f).Some? :: FieldValue(ordered, f).value
  }

  /** The listed sources that have a row. */
  ghost function SourcesOf(ordered: seq<Observation>, listed: seq<Source>): seq<Source> {
    if listed == [] then []
    else
      var n := |listed| - 1;
      SourcesOf(ordered, listed[..n]) + (if Chosen(LatestOf(listed[n]), ordered).Some? then [listed[n]] else [])
  }

  ghost predicate OneNetwork(xs: seq<Observation>) {
    forall o :: o in xs ==> o.network == xs[0].network
  }

  /** What `merge_observations` returns: a node, None for an expired one, or an error. */
  ghost function Merge(received: seq<Observation>, now: int, settings: Settings): Result<Option<Node>, MergeError> {
    if received == [] then Err(NoObservations)
    else if !OneNode(received) then Err(DifferentNodes)
    else if !OneNetwork(received) then Err(DifferentNetworks)
    else
      MergeOrdered(StableSort(received, NoLater), now, settings)
  }

  ghost function MergeOrdered(ordered: seq<Observation>, now: int,
                              settings: Settings): Result<Option<Node>, MergeError> {
    if ordered == [] then Err(NoObservations)
    else
      match ClassifyTemporalStatus(ordered[|ordered| - 1].observedAt, now, settings)
      case Err(e) => Err(e)
      case Ok(None) => Ok(None)
      case Ok(Some(status)) => Ok(Some(NodeOf(ordered, status)))
  }

  lemma SomethingChosen(ordered: seq<Observation>)
    requires ordered != []
    ensures Chosen(Latest, ordered) == Some(ordered[|ordered| - 1])
    ensures Chosen(EarliestSeen, ordered).Some?
  {
    ChoiceIsBest(EarliestSeen, ordered);
  }

  /** `_latest_non_null`, and `next(... for ... in reversed(ordered) ...)` */
  method LatestNonNull(ordered: seq<Observation>, field: Field) returns (value: Option<Value>)
    ensures value == FieldValue(ordered, field)
  {
    for i := |ordered| downto 0
      invariant forall j :: i <= j < |ordered| ==> field !in ordered[j].values
    {
      if field in ordered[i].values {
        BestIsChoice(LatestValue(field), ordered, i);
        return Some(ordered[i].values[field]);
      }
    }
    ChoiceIsBest(LatestValue(field), ordered);
    return None;
  }

  /** `position_candidates` */
  method PositionCandidates(ordered: seq<Observation>) returns (candidates: seq<Observation>)
    ensures Chosen(NewestPosition, candidates) == Chosen(NewestPosition, ordered)
    ensures forall o :: o in candidates ==> o.position.Some?
  {
    candidates := [];
    ghost var positioned := set i: nat | i < |ordered| && ordered[i].position.Some?;
    for i := 0 to |ordered|
      invariant candidates == Keep(ordered[..i], positioned)
      invariant forall o :: o in candidates ==> o.position.Some?
    {
      assert ordered[..i + 1][..i] == ordered[..i];
      if ordered[i].position.Some? {
        candidates := candidates + [ordered[i]];
      }
    }
    assert ordered[..|ordered|] == ordered;
    ChosenSurvives(NewestPosition, ordered, positioned);
  }

  /** The first greatest of the rows with a position. */
  method NewestCandidate(ordered: seq<Observation>) returns (best: Option<Observation>)
    ensures best == Chosen(NewestPosition, ordered)
  {
    var candidates := PositionCandidates(ordered);
    if candidates == [] {
      return None;
    }
    var top := 0;
    assert candidates[..1] == [candidates[0]];
    for i := 1 to |candidates|
      invariant top < i
      invariant Choice(NewestPosition, candidates[..i]) == Some(top)
    {
      assert candidates[..i + 1][..i] == candidates[..i];
      if PositionNewer(candidates[i], candidates[top]) {
        top := i;
      }
    }
    assert candidates[..|candidates|] == candidates;
    return Some(candidates[top]);
  }

  /** The smallest of the first sightings. */
  method FirstSeen(ordered: seq<Observation>) returns (first: int)
    requires ordered != []
    ensures Chosen(EarliestSeen, ordered).Some? && first == Chosen(EarliestSeen, ordered).value.Seen()
  {
    first := ordered[0].Seen();
    for i := 1 to |ordered|
      invariant forall j :: 0 <= j < i ==> first <= ordered[j].Seen()
      invariant exists j :: 0 <= j < i && first == ordered[j].Seen()
    {
      if ordered[i].Seen() < first {
        first := ordered[i].Seen();
      }
    }
    SomethingChosen(ordered);
    ChoiceIsBest(EarliestSeen, ordered);
  }

  /** `merge_observations` */
  method MergeObservations(received: seq<Observation>, now: int, settings: Settings)
    returns (r: Result<Option<Node>, MergeError>)
    ensures r == Merge(received, now, settings)
  {
    if received == [] {
      return Err(NoObservations);
    }
    if exists o | o in received :: o.Id() != received[0].Id() {
      return Err(DifferentNodes);
    }
    if exists o | o in received :: o.network != received[0].network {
      return Err(DifferentNetworks);
    }
    var ordered := StableSort(received, NoLater);
    SameElements(received, ordered);
    r := MergeSorted(ordered, now, settings);
  }

  /** The merge after the sort. */
  method MergeSorted(ordered: seq<Observation>, now: int, settings: Settings)
    returns (r: Result<Option<Node>, MergeError>)
    requires ordered != []
    ensures r == MergeOrdered(ordered, now, settings)
  {
    var last := ordered[|ordered| - 1];
    SomethingChosen(ordered);
    var status := ClassifyTemporalStatus(last.observedAt, now, settings);
    if status.Err? {
      return Err(status.error);
    }
    if status.value.None? {
      return Ok(None);
    }
    var node := ConsolidatedNode(ordered, status.value.value);
    return Ok(Some(node));
  }

  /** The fields of the node, one after another. */
  method ConsolidatedNode(ordered: seq<Observation>, status: Temporal) returns (node: Node)
    requires ordered != []
    ensures node == NodeOf(ordered, status)
  {
    var last := ordered[|ordered| - 1];
    SomethingChosen(ordered);
    var first := FirstSeen(ordered);
    var sources, sourceIds, sourceLastSeen := SourceFields(ordered);
    var position := NewestCandidate(ordered);
    var values := FieldValues(ordered);
    node := Node(last.Id(), last.network, sources, sourceIds, sourceLastSeen, values,
                 if position.Some? then position.value.position else None,
                 first, last.observedAt, status);
  }

  method SourceFields(ordered: seq<Observation>)
    returns (sources: seq<Source>, sourceIds: map<Source, string>, sourceLastSeen: map<Source, int>)
    ensures sources == SourcesOf(ordered, SOURCES)
    ensures sourceIds == SourceIds(ordered)
    ensures sourceLastSeen == SourceTimes(ordered)
  {
    var latest := LatestBySource(ordered);
    sources := SortedSources(ordered, latest);
    var rows := LatestRows(ordered, latest);
    sourceIds := IdsOfRows(ordered, rows);
    sourceLastSeen := TimesOfRows(ordered, rows);
  }

  function IdsOfRows(ghost ordered: seq<Observation>, rows: map<Source, Observation>): (ids: map<Source, string>)
    requires forall s :: s in rows <==> Chosen(LatestOf(s), ordered).Some?
    requires forall s :: s in rows ==> Chosen(LatestOf(s), ordered) == Some(rows[s])
    ensures ids == SourceIds(ordered)
  {
    map s | s in rows :: rows[s].sourceId
  }

  function TimesOfRows(ghost ordered: seq<Observation>, rows: map<Source, Observation>): (times: map<Source, int>)
    requires forall s :: s in rows <==> Chosen(LatestOf(s), ordered).Some?
    requires forall s :: s in rows ==> Chosen(LatestOf(s), ordered) == Some(rows[s])
    ensures times == SourceTimes(ordered)
  {
    map s | s in rows :: rows[s].observedAt
  }

  method LatestRows(ordered: seq<Observation>, latest: map<Source, nat>) returns (rows: map<Source, Observation>)
    requires forall s :: s in latest <==> Choice(LatestOf(s), ordered).Some?
    requires forall s :: s in latest ==> Choice(LatestOf(s), ordered) == Some(latest[s])
    ensures forall s :: s in rows <==> Chosen(LatestOf(s), ordered).Some?
    ensures forall s :: s in rows ==> Chosen(LatestOf(s), ordered) == Some(rows[s])
  {
    rows := map s | s in latest :: ordered[latest[s]];
  }

  /** The keys of `latest_by_source` in SOURCE_ORDER. */
  method SortedSources(ordered: seq<Observation>, latest: map<Source, nat>) returns (sources: seq<Source>)
    requires forall s :: s in latest <==> Choice(LatestOf(s), ordered).Some?
    ensures sources == SourcesOf(ordered, SOURCES)
  {
    sources := [];
    for k := 0 to |SOURCES|
      invariant sources == SourcesOf(ordered, SOURCES[..k])
    {
      assert SOURCES[..k + 1][..k] == SOURCES[..k];
      if SOURCES[k] in latest {
        sources := sources + [SOURCES[k]];
      }
    }
    assert SOURCES[..|SOURCES|] == SOURCES;
  }

  method FieldValues(ordered: seq<Observation>) returns (values: map<Field, Value>)
    ensures values == FieldsOf(ordered)
  {
    values := map[];
    for k := 0 to |FIELDS|
      invariant forall f :: f in values <==> FieldNumber(f) < k && FieldValue(ordered, f).Some?
      invariant forall f :: f in values ==> FieldValue(ordered, f) == Some(values[f])
    {
      var field := FIELDS[k];
      var value := LatestNonNull(ordered, field);
      FieldNumberOf(k);
      if value.Some? {
        values := values[field := value.value];
      }
    }
  }

  lemma FieldNumberOf(k: nat)
    requires k < |FIELDS|
    ensures FieldNumber(FIELDS[k]) == k
    ensures forall f :: FieldNumber(f) == k ==> f == FIELDS[k]
  {
  }

  // ------------------------------------------------------------ the selection is enough

  lemma {:induction false} KeepIsSorted(xs: seq<Observation>, keep: set<nat>)
    requires Sorted(xs, NoLater)
    ensures Sorted(Keep(xs, keep), NoLater)
  {
    KeepByIndex(xs, keep);
    KeptProperties(|xs|, keep);
  }

  lemma {:induction false} KeepNotEmpty(ordered: seq<Observation>)
    requires ordered != []
    ensures Keep(ordered, Selected(ordered)) != []
    ensures forall o :: o in Keep(ordered, Selected(ordered)) ==> o in ordered
  {
    SelectedCovers(Latest, ordered);
    LatestIsLatestOfItsSource(ordered);
    KeepByIndex(ordered, Selected(ordered));
    KeptProperties(|ordered|, Selected(ordered));
    var i := KeptIndex(|ordered|, Selected(ordered), |ordered| - 1);
  }

  lemma {:induction false} SourcesOfAgree(xs: seq<Observation>, ys: seq<Observation>, listed: seq<Source>)
    requires forall p :: Chosen(p, xs) == Chosen(p, ys)
    ensures SourcesOf(xs, listed) == SourcesOf(ys, listed)
  {
    if listed != [] {
      SourcesOfAgree(xs, ys, listed[..|listed| - 1]);
    }
  }

  /** The node depends only on the rows the picks settle on. */
  lemma NodeDependsOnChoices(xs: seq<Observation>, ys: seq<Observation>, status: Temporal)
    requires xs != [] && ys != []
    requires forall p :: Chosen(p, xs) == Chosen(p, ys)
    ensures NodeOf(xs, status) == NodeOf(ys, status)
  {
    SomethingChosen(xs);
    SomethingChosen(ys);
    SourcesOfAgree(xs, ys, SOURCES);
    MapsAgree(xs, ys);
  }

  lemma MapsAgree(xs: seq<Observation>, ys: seq<Observation>)
    requires forall p :: Chosen(p, xs) == Chosen(p, ys)
    ensures SourceIds(xs) == SourceIds(ys)
    ensures SourceTimes(xs) == SourceTimes(ys)
    ensures FieldsOf(xs) == FieldsOf(ys)
  {
  }

  lemma {:induction false} OrderedSelectionIsEnough(ordered: seq<Observation>, now: int, settings: Settings)
    requires ordered != []
    ensures MergeOrdered(Keep(ordered, Selected(ordered)), now, settings) == MergeOrdered(ordered, now, settings)
  {
    var kept := Keep(ordered, Selected(ordered));
    KeepNotEmpty(ordered);
    forall p ensures Chosen(p, kept) == Chosen(p, ordered) {
      SelectedCovers(p, ordered);
      ChosenSurvives(p, ordered, Selected(ordered));
    }
    SomethingChosen(ordered);
    SomethingChosen(kept);
    forall status ensures NodeOf(kept, status) == NodeOf(ordered, status) {
      NodeDependsOnChoices(kept, ordered, status);
    }
  }

  /** The selection is sorted, and holds rows of the history only. */
  lemma {:induction false} SelectionIsSorted(received: seq<Observation>)
    requires received != []
    ensures var ordered := StableSort(received, NoLater);
            var kept := Keep(ordered, Selected(ordered));
            && ordered != [] && kept != [] && StableSort(kept, NoLater) == kept
            && forall o :: o in kept ==> o in received
  {
    var ordered := StableSort(received, NoLater);
    SameElements(received, ordered);
    NoLaterIsPreorder();
    SortSorts(received, NoLater);
    KeepIsSorted(ordered, Selected(ordered));
    SortOfSorted(Keep(ordered, Selected(ordered)), NoLater);
    KeepNotEmpty(ordered);
  }

  /** Consolidating the selected rows gives exactly what consolidating the whole history gives: the
      same node, the same None, or the same error; and the selection refuses a history exactly when
      consolidation refuses it for mixing nodes. */
  lemma MergeOfSelection(received: seq<Observation>, now: int, settings: Settings)
    ensures Select(received).Ok? ==> Merge(Select(received).value, now, settings) == Merge(received, now, settings)
    ensures Select(received).Err? <==> Merge(received, now, settings) == Err(DifferentNodes)
  {
    if received != [] {
      MergeOfNode(received, now, settings);
      if OneNode(received) {
        var ordered := StableSort(received, NoLater);
        SelectionMatchesHistory(received);
        OrderedSelectionIsEnough(ordered, now, settings);
        MergeOfNode(Keep(ordered, Selected(ordered)), now, settings);
      }
    }
  }

  lemma {:induction false} MergeOfNode(received: seq<Observation>, now: int, settings: Settings)
    requires received != []
    ensures StableSort(received, NoLater) != []
    ensures Merge(received, now, settings)
         == if OneNode(received) then MergeOrdered(StableSort(received, NoLater), now, settings)
            else Err(DifferentNodes)
    ensures MergeOrdered(StableSort(received, NoLater), now, settings) != Err(DifferentNodes)
  {
    assert StableSort(received, NoLater) != [] by {
      SameElements(received, StableSort(received, NoLater));
    }
    SameNodeSameNetwork(received);
    OrderedIsOneNode(StableSort(received, NoLater), now, settings);
  }

  lemma OrderedIsOneNode(ordered: seq<Observation>, now: int, settings: Settings)
    ensures MergeOrdered(ordered, now, settings) != Err(DifferentNodes)
  {
  }

  lemma {:induction false} SelectionMatchesHistory(received: seq<Observation>)
    requires received != []
    ensures var ordered := StableSort(received, NoLater);
            var kept := Keep(ordered, Selected(ordered));
            && ordered != [] && kept != [] && StableSort(kept, NoLater) == kept
            && (OneNode(received) ==> OneNode(kept) && OneNetwork(kept))
  {
    SelectionIsSorted(received);
    var ordered := StableSort(received, NoLater);
    var kept := Keep(ordered, Selected(ordered));
    OneNodeOfElements(received, kept);
    SameNodeSameNetwork(kept);
  }

  /** Rows of one node never disagree about its network. */
  lemma SameNodeSameNetwork(xs: seq<Observation>)
    ensures OneNode(xs) ==> OneNetwork(xs)
  {
    forall o | o in xs && OneNode(xs) ensures o.network == xs[0].network {
      assert o.Id() == xs[0].Id();
    }
  }

  lemma {:induction false} KeptIsAllSelected(ordered: seq<Observation>)
    ensures var kept := Keep(ordered, Selected(ordered)); Keep(kept, Selected(kept)) == kept
  {
    var keep := Selected(ordered);
    var kept := Keep(ordered, keep);
    KeepByIndex(ordered, keep);
    KeptProperties(|ordered|, keep);
    forall i | 0 <= i < |kept| ensures i in Selected(kept) {
      var k := Kept(|ordered|, keep)[i];
      var p :| Choice(p, ordered) == Some(k);
      ChoiceIsBest(p, ordered);
      BestAmongKept(p, ordered, keep, i);
      BestIsChoice(p, kept, i);
      assert IsChoice(i, kept);
    }
    KeepAll(kept, Selected(kept));
  }

  /** The selection leaves the rows as they are. */
  ghost predicate KeepsAll(rows: seq<Observation>) {
    Select(rows) == Ok(rows)
  }

  /** Selecting from a selection keeps all of it. */
  lemma SelectionIsIdempotent(received: seq<Observation>)
    requires Select(received).Ok?
    ensures KeepsAll(Select(received).value)
  {
    if received != [] {
      SelectionMatchesHistory(received);
      KeptIsAllSelected(StableSort(received, NoLater));
    }
  }

  lemma {:induction false} KeepAll(xs: seq<Observation>, keep: set<nat>)
    requires forall i :: 0 <= i < |xs| ==> i in keep
    ensures Keep(xs, keep) == xs
  {
    if xs != [] {
      KeepAll(xs[..|xs| - 1], keep);
    }
  }

  // ------------------------------------------------------------ how many rows are kept

  /** Every pick but Latest, which is the latest of its own source. */
  const PICKS: seq<Pick> :=
    [LatestOf(MalhaPt), LatestOf(OzuloMap), LatestOf(MeshcoreMap), LatestOf(MeshcoreHub),
     EarliestSeen, NewestPosition,
     LatestValue(ShortName), LatestValue(LongName), LatestValue(Hardware), LatestValue(Role),
     LatestValue(NodeType), LatestValue(IsObserver),
     LatestValue(BatteryPercent), LatestValue(VoltageV), LatestValue(ChannelUtilizationPercent),
     LatestValue(AirUtilTxPercent), LatestValue(SnrDb), LatestValue(RssiDbm),
     LatestValue(Channel), LatestValue(Firmware), LatestValue(HopsAway), LatestValue(MqttGateway),
     LatestValue(FrequencyMhz), LatestValue(BandwidthKhz), LatestValue(SpreadingFactor), LatestValue(CodingRate)]

  lemma EveryPickListed(p: Pick)
    requires p != Latest
    ensures p in PICKS
  {
    match p
    case LatestOf(s) => assert PICKS[SourceOrder(s)] == p;
    case EarliestSeen => assert PICKS[4] == p;
    case NewestPosition => assert PICKS[5] == p;
    case LatestValue(f) => assert PICKS[6 + FieldNumber(f)] == p;
  }

  /** The indexes the listed picks settle on. */
  ghost function Indexes(picks: seq<Pick>, ordered: seq<Observation>): set<nat> {
    if picks == [] then {}
    else
      var i := Choice(picks[|picks| - 1], ordered);
      Indexes(picks[..|picks| - 1], ordered) + (if i.Some? then {i.value} else {})
  }

  lemma {:induction false} IndexesBound(picks: seq<Pick>, ordered: seq<Observation>)
    ensures |Indexes(picks, ordered)| <= |picks|
  {
    if picks != [] {
      IndexesBound(picks[..|picks| - 1], ordered);
    }
  }

  lemma {:induction false} IndexesContain(picks: seq<Pick>, ordered: seq<Observation>, p: Pick)
    requires p in picks
    ensures Covered(p, ordered, Indexes(picks, ordered))
  {
    if p != picks[|picks| - 1] {
      IndexesContain(picks[..|picks| - 1], ordered, p);
    }
  }

  lemma {:induction false} KeptLength(n: nat, keep: set<nat>, all: set<nat>)
    requires forall k :: k in keep && k < n ==> k in all
    ensures |Kept(n, keep)| <= |all|
  {
    if n > 0 {
      if n - 1 in keep {
        KeptLength(n - 1, keep, all - {n - 1});
      } else {
        KeptLength(n - 1, keep, all);
      }
    }
  }

  /** However long the history, at most 26 rows of a node are retained. */
  lemma SelectionIsBounded(received: seq<Observation>)
    requires Select(received).Ok?
    ensures |Select(received).value| <= 26
  {
    var ordered := StableSort(received, NoLater);
    var all := Indexes(PICKS, ordered);
    forall k | k in Selected(ordered) ensures k in all {
      var p :| Choice(p, ordered) == Some(k);
      var q := if p == Latest then LatestOf(ordered[|ordered| - 1].source) else p;
      if p == Latest { LatestIsLatestOfItsSource(ordered); }
      EveryPickListed(q);
      IndexesContain(PICKS, ordered, q);
    }
    KeepByIndex(ordered, Selected(ordered));
    KeptLength(|ordered|, Selected(ordered), all);
    IndexesBound(PICKS, ordered);
  }

  // ------------------------------------------------------------ order of arrival

  /** The UNIQUE key of the table, within one node. */
  predicate DistinctKeys(xs: seq<Observation>) {
    forall i, j :: 0 <= i < j < |xs| ==> xs[i].source != xs[j].source || xs[i].observedAt != xs[j].observedAt
  }

  lemma DistinctKeysNoTies(xs: seq<Observation>)
    requires DistinctKeys(xs)
    ensures NoTies(xs, NoLater)
  {
    forall a, b | a in xs && b in xs && NoLater(a, b) && NoLater(b, a) ensures a == b {
      var i :| 0 <= i < |xs| && xs[i] == a;
      var j :| 0 <= j < |xs| && xs[j] == b;
      SourceOrderInjective(a.source, b.source);
    }
  }

  lemma {:induction false} ArrangementSortsAlike(xs: seq<Observation>, ys: seq<Observation>)
    requires multiset(xs) == multiset(ys)
    requires DistinctKeys(xs)
    ensures StableSort(xs, NoLater) == StableSort(ys, NoLater)
  {
    NoLaterIsPreorder();
    DistinctKeysNoTies(xs);
    SortIgnoresArrangement(xs, ys, NoLater);
  }

  lemma OneNodeOfElements(xs: seq<Observation>, ys: seq<Observation>)
    requires xs != [] && ys != []
    requires forall o :: o in ys ==> o in xs
    ensures OneNode(xs) ==> OneNode(ys)
    ensures OneNetwork(xs) ==> OneNetwork(ys)
  {
    assert ys[0] in xs;
  }

  /** With distinct (source, time) pairs, the order in which rows arrive is irrelevant. */
  lemma MergeIgnoresArrangement(xs: seq<Observation>, ys: seq<Observation>, now: int, settings: Settings)
    requires multiset(xs) == multiset(ys)
    requires DistinctKeys(xs)
    ensures Merge(xs, now, settings) == Merge(ys, now, settings)
    ensures Select(xs) == Select(ys)
  {
    ArrangementSortsAlike(xs, ys);
    if xs != [] {
      assert OneNode(xs) == OneNode(ys) && OneNetwork(xs) == OneNetwork(ys) && ys != [] by {
        SameElements(xs, ys);
        OneNodeOfElements(xs, ys);
        OneNodeOfElements(ys, xs);
      }
    }
  }

  lemma SourceOrderInjective(a: Source, b: Source)
    ensures SourceOrder(a) == SourceOrder(b) ==> a == b
  {
  }
}
