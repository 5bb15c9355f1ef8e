# Verified model of the Mesh Noroeste backend

This project models the stateful parts of the Python backend in Dafny and proves that each cheap,
incremental or filtered computation agrees with a simple one.  `dafny verify dfyconfig.toml` checks it.

* **Observation store** (`ObservationTables`, `Identifiers`, `NodePurge`, `SourceRuns`, `Retention`): rows
  with cursors that outlive them, saves, whole snapshots, prunes and purges, over any sequence of operations.
* **Publication compaction** (`Consolidation`, `PublishedNode`, `NodePublication`): the few rows kept per
  node give the node that the whole history gives, and so the same published list.
* **Live run** (`LiveHistory`, `LiveHistoryPublication`, `LiveWindow`, `ExperimentStore`, `LiveRun`,
  `LiveRunProperties`, `LiveRunDelivery`, `LiveRunAgreement`): a fixed sequence of effects that may stop
  between any two of them, with the cursor committed last.
* **Territories** (`Segments`, `RayCasting`, `Territories`, `Classification`): ray casting, bounding boxes,
  precision cells, on exact reals.
* **Generations** (`Generations`): the file-system protocol that publishes a generation, where any call
  may raise and the process may stop anywhere.
* **Experiment reports** (`Statistics`, `ExperimentReport`, `TimeBuckets`, `ComparisonWindow`,
  `TerritorialReport`): percentiles, conservation over buckets and territories.
* `Timestamps`, `Texts`, `Ordering` and `Basics` carry what the others share.

Times are integers (seconds or microseconds since an epoch); `Timestamps` proves once that the textual
form orders the same way.  Objects whose methods update their fields are classes; loops are methods proved
against specification functions; the properties are lemmas about those.

## What the proofs found

* **Bounding box.** Within the tolerance of 1e-12 outside a territory's box, `Territory.contains` may say
  no where ray casting says yes. `BoxChangesAnswerIff` says exactly when, `BoxIsNotExactAtTolerance` gives
  a point.
* **Snapshots.** When a source mixes `save_edges` with `replace_edges`, an edge can move back in time: a
  stored older key is admitted again and the newer row is deleted (`ReplaceCanMoveBack`;
  `ReplaceMovesBackIff` says exactly when, for any table).
* **Expiry.** A node is expired exactly from the pruning limit on only if the active window is not longer
  than the historical one. `classify_temporal_status` does not demand that; the configuration does.
* **Hour files.** An event imported again in another hour leaves the file of its old hour stale, unless that
  hour is rewritten or emptied (`CompleteRunAgreesIff`, `MovedEventStrays`).
* **Live window.** Step-by-step merging can lose an event that one windowing keeps: after an id is imported
  again with an earlier time (`EarlierReimportDiffers`), or when a generation time goes back
  (`ClockGoingBackDiffers`). `FoldEqualsOneWindowingIff` says exactly when the two agree; times that do not
  go back are enough (`FoldEqualsOneWindowing`).
* **Connection ids.** The id of a connection joins network, type and both source ids with colons, and
  `make_edge_observation` admits MeshCore ids that hold colons themselves, so two connections can share an
  id and its cursor (`EdgeIdsAgreeIff`).  Purging a node of the one then lets old records of the other in
  again (`SharedIdForgetsTooMuch`), exactly when the shared cursor was stored with ends that touch the node
  (`UntouchedIsReadmittedIff`, `PurgeReadmitsIff`).  Ids made by the adapters have no colons: those of
  MeshCore are 64 hexadecimal digits, those of Meshtastic eight after an exclamation mark.
* **An hour over the limit.** A run that brings an event of an hour of which it would keep more than 5000
  events fails before it commits. So does every retry that brings its events again, as long as more than
  5000 events of that hour are within the retention at its clock (`CompletesIff`,
  `OverfullHourStopsRetries`).
* **Percentiles.** The analysis function accepts fractions outside 0 and 1; the report function refuses them.
* **Emitter ids.** A summary limited to emitters strips the ids it is given but not those stored, so the rows
  of an id with blanks around it are in the channel total and in no group
  (`SummariesCoverTheirEmittersIff`, `TotalsAgreeIff`).  One report may add up all the same, when another id
  is asked for twice (`ReportTotalsAgreeIff` says exactly when).  Ids made by the adapters have no blanks.

## Model

| member | source | states |
|---|---|---|
| Consolidation.MergeOfSelection | backend/mesh_noroeste/storage.py:128-226 | Merging only the rows the selection keeps gives the same node, the same None or the same error as merging all rows of the node, for every clock and settings |
| PublishedNode.MergeShowsTheRows | backend/mesh_noroeste/domain.py:1003-1271 | For any rows: the exact refusals and the exact case of no node; else the node shows the first sighting, the last sighting, the position no received row beats by update and then by observation time, the last value of each field, every source, and the status its age falls in by hours and days |
| NodePublication.CompactionIsInvisible | backend/mesh_noroeste/storage.py:1746-1816 | The published node list built from `load_for_publication` equals the one built from all stored rows, for every excluded set, region, clock and settings |
| Consolidation.SelectedIff | backend/mesh_noroeste/storage.py:148-226 | A row is kept if and only if it is the last one, or the last of its source, the first of those seen first, the first of those with the newest position, or the last with a value of some field |
| Consolidation.SelectionIsIdempotent | backend/mesh_noroeste/storage.py:148-226 | Selecting from a selection keeps it as it is |
| Consolidation.SelectionIsBounded | backend/mesh_noroeste/storage.py:148-226 | At most 26 rows are kept, however long the history |
| PublishedNode.NoLaterIsNotNewer | backend/mesh_noroeste/domain.py:1104-1115 | Rows are ordered by time and, at the same time, by the rank of their sources: malha_pt, ozulo_map, meshcore_map, meshcore_hub |
| Consolidation.MergeIgnoresArrangement | backend/mesh_noroeste/domain.py:1104-1222 | With distinct (source, time) pairs, as the UNIQUE key guarantees, every arrangement of the rows merges to the same node |
| Consolidation.SelectPublicationObservations | backend/mesh_noroeste/storage.py:128-226 | The streaming pass keeps exactly the rows chosen by the tie rules, in their order, or reports why it cannot |
| Consolidation.SelectedIndexes | backend/mesh_noroeste/storage.py:148-226 | The marked indexes are exactly those that some rule (latest, latest per source, first seen, newest position, latest value of a field) chooses |
| Consolidation.LatestBySource | backend/mesh_noroeste/storage.py:162-167 | For each source, the index of its last row |
| Consolidation.EarliestIndex | backend/mesh_noroeste/storage.py:169-176 | The first of the earliest rows |
| Consolidation.NewestPositionIndex | backend/mesh_noroeste/storage.py:178-202 | The first row whose position is newest |
| Consolidation.LatestValueIndex | backend/mesh_noroeste/storage.py:204-220 | The last row that has a value for the field, if any |
| Consolidation.MergeObservations | backend/mesh_noroeste/domain.py:1067-1271 | The node computed step by step is the one defined by the tie rules, with the same refusals and the same None for expired nodes |
| Consolidation.LatestNonNull | backend/mesh_noroeste/domain.py:1054-1064 | The value of the last row that has one |
| Consolidation.NewestCandidate | backend/mesh_noroeste/domain.py:1162-1182 | The first of the newest positions among the rows that have one |
| Consolidation.FirstSeen | backend/mesh_noroeste/domain.py:1131-1140 | The least first sighting, an observation without one counting by its own time |
| Consolidation.ChoiceIsBest | backend/mesh_noroeste/storage.py:148-226 | The recursive choice of each rule is the row that no other row beats, first or last of its ties as the rule says |
| Consolidation.IdTextIsUnambiguous | backend/mesh_noroeste/normalization.py:89-119 | Two canonical ids have one text only if network and source id agree |
| NodePublication.PublishedIff | backend/mesh_noroeste/publication.py:623-675 | The list is strictly ordered by id text and holds exactly the nodes that are not excluded and consolidate to a node inside the region; it fails exactly when such a node cannot be consolidated |
| NodePublication.ListIsPublishable | backend/mesh_noroeste/publication.py:623-675 | The list holds exactly the nodes that are the merge of their rows, are not excluded and lie in the region, strictly by id text |
| NodePublication.OfNodeCounts | backend/mesh_noroeste/publication.py:623-650 | The rows of a node are each of its rows, as often as stored |
| NodePublication.ListFailsIff | backend/mesh_noroeste/publication.py:623-675 | There is none exactly when the rows of some node that is not excluded cannot be merged |
| NodePublication.LoadForPublication | backend/mesh_noroeste/storage.py:1746-1816 | One pass over the ordered rows, with an open group, selects from each node's run of rows and flushes the last one |
| NodePublication.CompactOfNode | backend/mesh_noroeste/storage.py:1746-1816 | After compaction the rows of each node are the selection of its rows |
| NodePublication.GroupRows | backend/mesh_noroeste/publication.py:623-650 | The groups are the rows of each node that is not excluded, in order |
| NodePublication.BuildNodes | backend/mesh_noroeste/publication.py:651-675 | The node list in the order of the id texts, without excluded, expired and out-of-region nodes, or the first refusal |
| ObservationTables.AppearsAtMostOnce | backend/mesh_noroeste/storage.py:1513-1645 | In any run without a purge of its item, each (source, id, time) key appears in the table at most once, and never at or below its cursor; a replacement that deletes and inserts a stored key in one operation does not make it appear |
| ObservationTables.StaleSnapshotIsIgnored | README.md:171-173 | Saving rows no newer than a batch saved earlier changes nothing, whatever saves, replacements, prunes and purges of other items happened in between |
| ObservationTables.NewestRowIsAtCursor | backend/mesh_noroeste/storage.py:1818-1944 | In every run of saves and prunes, while rows of an item exist the newest one is at its cursor and none is past it |
| ObservationTables.CursorNeverDecreasesInRun | backend/mesh_noroeste/storage.py:1624-1643 | Over any run that does not purge the item its cursor never goes back |
| ObservationTables.SaveCountsFreshKeys | backend/mesh_noroeste/storage.py:1513-1645 | The returned count is the number of distinct keys of the batch strictly newer than the cursors before it, whenever no row is past its cursor |
| ObservationTables.RowsStayUpToCursor | backend/mesh_noroeste/storage.py:1513-2132 | And so it is in every run without a purge of the item, however its source mixes saves and snapshots: no row is past its cursor |
| ObservationTables.SnapshotsKeepOneRow | backend/mesh_noroeste/storage.py:1947-2132 | A source written only by whole snapshots has at most one row per edge, at the cursor's time, in every reachable state |
| ObservationTables.SnapshotEffect | backend/mesh_noroeste/storage.py:1947-2132 | An edge absent from a snapshot keeps its row; a named edge keeps having one and never moves back; a pruned edge comes back only with a record newer than its cursor |
| ObservationTables.ReplacedHolds | backend/mesh_noroeste/storage.py:1992-2132 | After a replacement each admitted record's key holds exactly that record's value and columns, rows of edges without an admitted record are as they were, and there is nothing else; it fails only for a foreign source or for two admitted records of one key |
| ObservationTables.SavedHolds | backend/mesh_noroeste/storage.py:1513-1645 | After a save stored rows are as they were, each key that was absent and newer than its cursor holds the first record of the batch with that key, and there is nothing else |
| ObservationTables.AdvancedHold | backend/mesh_noroeste/storage.py:1624-1643 | Each cursor of a batch ends at the last of its times if that is newer, with the columns of the record that brought it, and at what it was otherwise |
| ObservationTables.AdmittedCount | backend/mesh_noroeste/storage.py:2028-2132 | The count of a replacement is the number of admitted records |
| ObservationTables.SnapshotNeverFails | backend/mesh_noroeste/storage.py:2044-2096 | With one record per edge id the plain INSERT never meets the UNIQUE key |
| ObservationTables.ReplaceMovesBackIff | backend/mesh_noroeste/storage.py:1947-2132 | For any table and batch: a replacement moves an edge back exactly when it admits records of the edge and all of them are older than some stored row |
| ObservationTables.ReplaceKeepsConsistentIff | backend/mesh_noroeste/storage.py:1947-2132 | For any table and batch: the newest row is at the cursor afterwards exactly when an admitted record of the edge is at least as new as the cursor, or none is admitted and it was there before |
| ObservationTables.ReplaceCanMoveBack | backend/mesh_noroeste/storage.py:2044-2096 | Two saves of an edge and a snapshot of the older one lose the newer one, and its cursor stays |
| ObservationTables.AdvancedCursors | backend/mesh_noroeste/storage.py:1624-1643 | After a batch each cursor is the maximum of what it was and the batch's times for its item |
| ObservationTables.InsertedKeys | backend/mesh_noroeste/storage.py:1582-1617 | The keys after a save are the old ones and the fresh ones; old rows are unchanged |
| ObservationTables.ObservationTable.Save | backend/mesh_noroeste/storage.py:1513-1645 | The new table is the specified one, and the count is the growth |
| ObservationTables.ObservationTable.Replace | backend/mesh_noroeste/storage.py:1947-2132 | Replaces the rows of the admitted edges, or rolls back on a foreign source or a repeated key |
| ObservationTables.ObservationTable.InsertPlain | backend/mesh_noroeste/storage.py:2078-2096 | Fails exactly when the batch repeats a key, and otherwise adds its rows |
| ObservationTables.ObservationTable.Prune | backend/mesh_noroeste/storage.py:2833-2876 | Removes exactly the rows older than the limit and keeps every cursor |
| ObservationTables.ObservationTable.Purge | backend/mesh_noroeste/storage.py:2467-2558 | Removes exactly the rows and the cursors that a column test hits, and counts the rows; `NodePurge` gives the tests |
| NodePurge.ObservationStore.PurgeNode | backend/mesh_noroeste/storage.py:2434-2563 | Leaves nothing that names the node in rows and cursors of nodes and connections, in neighbours and in receptions, and all the rest as it was; or refuses a text that is no canonical id and changes nothing |
| NodePurge.ForgetsByColumns | backend/mesh_noroeste/storage.py:2467-2558 | What a purge leaves, column by column, in each of the four tables and in both cursor tables |
| NodePurge.EdgePurgeForgetsExactlyTheNode | backend/mesh_noroeste/storage.py:2467-2541 | After any run whose source ids hold no colon: a purge forgets rows and cursor of each connection of the node and leaves all of every other one |
| NodePurge.StaleEdgesStayOut | README.md:171-173 | For such ids, a record no newer than one saved before changes nothing, whatever is saved, replaced and pruned in between and whichever nodes are purged that it does not touch |
| NodePurge.NodePurgesSpareOthers | backend/mesh_noroeste/storage.py:2483-2553 | Over any run, purges of other nodes spare a node's id in every source, and a purge of the node forgets it |
| NodePurge.UntouchedIsReadmittedIff | backend/mesh_noroeste/storage.py:2467-2541 | For any source ids, after any run: a purge lets an old record of a connection that does not touch the node in again if and only if the stored cursor of the id has ends that touch it, and these ends then differ in which colon divides them |
| NodePurge.PurgeReadmitsIff | backend/mesh_noroeste/storage.py:2467-2558 | For any table: a purge lets some record of an id in again that was ignored before if and only if it takes the id's cursor |
| NodePurge.PurgeKeepsConsistentIff | backend/mesh_noroeste/storage.py:2467-2558 | Exactly when a purge leaves the newest row of an id at its cursor: it takes all of its rows, or neither the cursor nor the row at the cursor |
| NodePurge.SharedIdForgetsTooMuch | backend/mesh_noroeste/storage.py:2467-2541 | Two connections with canonical ends and one id share a cursor; a purge of the one takes it, and the other lets an old record in again, with rows left and with none |
| Identifiers.EdgeIdsAgreeIff | backend/mesh_noroeste/domain.py:454-459 | Two connections have one id if and only if network, type and ends agree, or the ends differ only in which colon divides them |
| Identifiers.EdgeTextIs | backend/mesh_noroeste/domain.py:454-459 | The id of a connection is network, kind and both ends, with colons between them |
| Identifiers.MeshtasticIdIs | backend/mesh_noroeste/normalization.py:24-55 | Which texts are accepted as a Meshtastic id, and the id each gives: a mark and eight digits, made small |
| Identifiers.MeshcoreIdIs | backend/mesh_noroeste/normalization.py:58-86 | Which texts are accepted as a MeshCore id, and the id each gives |
| Identifiers.CanonicalIs | backend/mesh_noroeste/normalization.py:89-119 | Which networks and source ids give a canonical id, and which |
| Identifiers.ParsedAtColon | backend/mesh_noroeste/storage.py:2445-2462 | A text is divided at its first colon |
| Identifiers.ParsedWithoutColon | backend/mesh_noroeste/storage.py:2445-2462 | A text without a colon is refused |
| Identifiers.NodeTextIs | backend/mesh_noroeste/domain.py:297-299 | The text of an id is the name of its network, a colon and the source id |
| Texts.LexLessIff | backend/mesh_noroeste/publication.py:651-655 | One text comes before another exactly when, after an equal part, it ends or has the smaller character |
| Texts.StripTakesBlanks | backend/mesh_noroeste/normalization.py:46-98 | Stripping takes the blanks from both ends of a text and nothing else |
| Texts.Blanks | backend/mesh_noroeste/normalization.py:46-98 | Which ASCII characters are blanks |
| Identifiers.SmallLetters | backend/mesh_noroeste/normalization.py:24-86 | Making a text small changes its capital letters alone |
| Identifiers.CanonicalOnce | backend/mesh_noroeste/normalization.py:24-119 | Making a canonical id canonical again changes nothing, whatever it was made from |
| Identifiers.ParseOfText | backend/mesh_noroeste/storage.py:2445-2462 | The text of a canonical id is read back as that id |
| SourceRuns.PruneKeepsStatistics | backend/mesh_noroeste/storage.py:2833-2915 | Pruning at any limit leaves the statistics of every source as they were |
| SourceRuns.StatisticsAreUnique | backend/mesh_noroeste/storage.py:2760-2831 | The runs determine the statistics of a source |
| SourceRuns.StatisticsTellLastRuns | backend/mesh_noroeste/storage.py:2760-2831 | The statistics are those of the successful and of the failed run that ended last, ties by the greater id; without one they are empty |
| SourceRuns.PruneKeepsIff | backend/mesh_noroeste/storage.py:2878-2905 | A run is left exactly when it ended, or else began, no earlier than the limit, or is the one of its source and outcome that ended last |
| SourceRuns.ErrorsHaveMessages | backend/mesh_noroeste/storage.py:2622-2831 | The statistics show an error exactly when some run failed, and its message is never blank |
| SourceRuns.SourceRunTable.StatisticsOf | backend/mesh_noroeste/storage.py:2760-2831 | The statistics are those of the latest successful and the latest failed run, ties by id |
| SourceRuns.SourceRunTable.Finish | backend/mesh_noroeste/storage.py:2622-2758 | Closes a run exactly when the arguments are acceptable and the run is open and began no later; only that run changes, its message stripped; anything else is refused and changes nothing |
| SourceRuns.SourceRunTable.Begin | backend/mesh_noroeste/storage.py:2581-2620 | Opens a run under an id never used before |
| SourceRuns.SourceRunTable.Prune | backend/mesh_noroeste/storage.py:2878-2905 | Keeps the recent runs and the latest run of each source and outcome, counts the others, and changes no statistics |
| Retention.PruneRemovesExactlyTheExpired | backend/mesh_noroeste/cli.py:856-870 | Pruning at now minus the historical days removes all rows of exactly the nodes whose merge at that moment is None; every other node keeps its last sighting and status |
| Retention.MoreRowsLookNoOlder | backend/mesh_noroeste/domain.py:1003-1222 | More rows of a node, whatever they say, and an earlier clock never make it look older or drop it |
| Retention.ExpiryIsPruningLimitIff | backend/mesh_noroeste/domain.py:1003-1051 | Expiry and the pruning limit are the same moment if and only if the active window is no longer than the historical one |
| Timestamps.NormalizedOrder | backend/mesh_noroeste/normalization.py:148-205 | Two normalized timestamps compare as texts as their instants, cut to seconds, compare, whatever zones they came in |
| Timestamps.NormalizedSecond | backend/mesh_noroeste/normalization.py:148-205 | A normalized text is that of the UTC date whose second holds the instant, which is the local time less the zone's offset |
| Timestamps.RefusedInstants | backend/mesh_noroeste/normalization.py:148-205 | Exactly the instants outside the years 1 to 9999 are refused |
| Timestamps.InstantsCountSeconds | backend/mesh_noroeste/normalization.py:199-205 | On the Gregorian calendar the next day is 86400 seconds later, and hours, minutes and seconds count as such |
| Timestamps.NextDayExists | backend/mesh_noroeste/normalization.py:199-205 | The day after is one further in the month, or the next month or year when the month has no such day |
| Timestamps.FirstInstant | backend/mesh_noroeste/normalization.py:199-205 | The first second of year 1 is instant 0 |
| Timestamps.LastInstant | backend/mesh_noroeste/normalization.py:199-205 | The last second of year 9999 is the last of 3652059 days |
| Timestamps.DatesThatExist | backend/mesh_noroeste/normalization.py:170-205 | The days of each month of each year, leap years included |
| Timestamps.TextReads | backend/mesh_noroeste/normalization.py:199-205 | A text reads as its date, digit by digit |
| Timestamps.AnHourEast | backend/mesh_noroeste/normalization.py:148-205 | Half past midnight an hour east of Greenwich is in the leap day before |
| Timestamps.TextOrderIsInstantOrder | backend/mesh_noroeste/normalization.py:194-205 | On all valid dates, text order and text equality are instant order and instant equality (section 5.1 of RFC 3339) |
| Timestamps.NormalizeIsIdempotent | backend/mesh_noroeste/normalization.py:148-205 | Normalizing a normalized timestamp gives it back |
| Timestamps.FieldsOfInstant | backend/mesh_noroeste/normalization.py:199-205 | The fields of the instant of a date are that date |
| Segments.SegmentsIntersectIffShareAPoint | backend/mesh_noroeste/territory.py:567-637 | In exact arithmetic the test is true if and only if the two segments share a point |
| Segments.TolerancePinned | backend/mesh_noroeste/territory.py:205-229 | A point 0.9e-12 beside a unit segment or past its end counts as on it, one 1.1e-12 away does not |
| Territories.PolygonTestIffMeets | backend/mesh_noroeste/territory.py:709-754 | In exact arithmetic the rectangle test is true if and only if the cell holds a point of the polygon's area or of its outer ring, or a point of some ring, a hole's included, lies on the cell's border |
| Territories.TerritoryTestIffMeets | backend/mesh_noroeste/territory.py:757-777 | The same for a territory, for some polygon of it, and its bounding box loses no such cell |
| Territories.BoxAgreesWithRays | backend/mesh_noroeste/territory.py:40-58 | Inside the box, or more than the tolerance outside it, the box test never changes the ray-casting answer |
| Territories.HoleIsOutside | backend/mesh_noroeste/territory.py:275-295 | A point strictly inside a triangular or rectangular hole is not in the polygon, whatever its other rings |
| Territories.FramedPolygonHolds | backend/mesh_noroeste/territory.py:275-295 | A point within a rectangle and farther than the tolerance from its rectangular hole is in the polygon |
| Territories.TriangleTerritoryContains | backend/mesh_noroeste/territory.py:40-58 | A territory with a triangular polygon contains every strict mean of its corners, box test included |
| Territories.BoxChangesAnswerIff | backend/mesh_noroeste/territory.py:40-58 | Exactly when the box test changes the answer: the point is outside the box and the tolerance alone puts it on an outer ring and on no hole |
| Territories.BoxIsNotExactAtTolerance | backend/mesh_noroeste/territory.py:40-58 | A square and a point a tenth of the tolerance outside it, where the box test does change the answer |
| Territories.BoxIsExact | backend/mesh_noroeste/territory.py:40-58 | With no tolerance the box test never changes the answer |
| Territories.BoundsMakeTerritory | backend/mesh_noroeste/territory.py:298-332 | The computed bounds hold every position |
| Territories.RingTestIffOnBorder | backend/mesh_noroeste/territory.py:681-706 | In exact arithmetic the ring test is true if and only if the ring has a point on the border of the cell |
| Territories.ContainingTerritoryIsCompatible | backend/mesh_noroeste/territory.py:709-777 | A territory that contains the position passes the test of its cell |
| RayCasting.BeyondIsOutside | backend/mesh_noroeste/territory.py:232-272 | A point beyond the tolerance of a closed ring's extent is outside; on the west side because a closed ring crosses each level an even number of times |
| RayCasting.TriangleHolds | backend/mesh_noroeste/territory.py:232-272 | Every strictly positive weighted mean of the corners of a triangle that is not flat is inside its ring, at any tolerance and whichever way round |
| RayCasting.FrameHolds | backend/mesh_noroeste/territory.py:232-272 | Every point strictly within a rectangle is inside its ring, wherever the ring starts and whichever way round |
| RayCasting.OneEdgeBetween | backend/mesh_noroeste/territory.py:232-272 | For any ring: of two points level with each other, off the border and with a single edge passing between them, exactly one is inside |
| RayCasting.WestOfRing | backend/mesh_noroeste/territory.py:232-272 | West of a closed ring the number of crossings is even |
| RayCasting.RotationInvariance | backend/mesh_noroeste/territory.py:205-272 | Starting the ring at another vertex never changes the answer |
| RayCasting.ReversalInvariance | backend/mesh_noroeste/territory.py:205-272 | Reversing the ring never changes the answer |
| RayCasting.ConstantOffTheBorder | backend/mesh_noroeste/territory.py:232-272 | In exact arithmetic, with no tolerance, the answer is the same throughout a rectangle that no edge enters |
| RayCasting.PointInRing | backend/mesh_noroeste/territory.py:232-272 | The loop computes on-an-edge or odd parity |
| Classification.ExactMeaning | backend/mesh_noroeste/territory.py:922-1043 | In exact arithmetic classification fails exactly when two territories of the level contain the position; otherwise the exact one is the one that contains it, and it meets the position's cell |
| Classification.VerdictTells | backend/mesh_noroeste/territory.py:922-1043 | For any index, place and bits: when classification fails, and else the status and each list of the verdict, in terms of which territories hold the place and which its cell touches |
| Classification.CellHolds | backend/mesh_noroeste/territory.py:464-539 | When a cell is refused, and else exactly the places of the globe that it holds: those within half a side, which is 2^(32 - bits) units of 1e-7 degrees, of the position |
| Classification.ThirteenBits | backend/mesh_noroeste/territory.py:464-539 | Half the side at 13 bits is 0.0262144 degrees |
| Classification.FilterInOrder | backend/mesh_noroeste/territory.py:860-1043 | Every list of a verdict is in the order of the index |
| Classification.InexactMeaning | backend/mesh_noroeste/territory.py:996-1043 | In exact arithmetic a position that no territory contains is compatible, ambiguous or outside as one, several or none meets its cell |
| Classification.Find | backend/mesh_noroeste/territory.py:860-920 | The territories of the level that contain the position, in index order, or out of range |
| Classification.Classify | backend/mesh_noroeste/territory.py:922-1043 | The verdict is the specified one, for missing positions and every error too |
| Classification.FewerBitsWiden | backend/mesh_noroeste/territory.py:464-539 | Fewer precision bits give a cell that holds the finer one |
| LiveHistory.BucketsCountEverything | backend/mesh_noroeste/live_history.py:572-617 | The counts of the hour buckets add up to the size of the table |
| LiveHistory.HoursMakeWhole | backend/mesh_noroeste/live_history.py:466-617 | The per-hour queries, in order, are the whole history sorted by (import time, packet id, event id) |
| LiveHistory.NodeHoursOf | backend/mesh_noroeste/live_history.py:621-734 | An hour is listed for a node if and only if an event of that hour involves that node, broadcast apart; hours ascend |
| LiveHistory.ParticipantsAre | backend/mesh_noroeste/live_history.py:621-734 | A node is involved in an event exactly as origin, destination, gateway of some stage, or node of the route there or back, broadcast apart |
| LiveHistory.HourBuckets | backend/mesh_noroeste/live_history.py:572-617 | Strictly ascending hours, exactly those with events, each with its counts |
| LiveHistory.EnumerationIsUnique | backend/mesh_noroeste/live_history.py:539-550 | An ordered query has exactly one answer |
| LiveHistory.LiveHistoryStore.QueryEvents | backend/mesh_noroeste/live_history.py:466-569 | Lists the events that match the query, by import time, packet id and event id, cut at the limit, with their total and whether they were cut, or tells why the query is refused; stated of the table itself too |
| LiveHistory.LiveHistoryStore.SaveEvents | backend/mesh_noroeste/live_history.py:273-406 | Each id of the batch holds the last event of the batch with that id, every other row stays, and the count is that of the batch; or one event is invalid and nothing changes |
| LiveHistory.LiveHistoryStore.Prune | backend/mesh_noroeste/live_history.py:409-448 | An event is left, as it was, if and only if it was there and is at most retentionSeconds * 1000000 microseconds older than the reference; the others are counted |
| LiveHistory.LiveHistoryStore.TimeBounds | backend/mesh_noroeste/live_history.py:737-765 | The least and the greatest import time, or neither |
| LiveHistoryPublication.BuildHourDocument | backend/mesh_noroeste/live_history_publication.py:167-220 | The document of an hour lists exactly the events imported in those 3600 * 1000000 microseconds, in order, with their number, or the hour is refused for more than 5000 events or a start that is none |
| LiveHistoryPublication.BuildManifest | backend/mesh_noroeste/live_history_publication.py:240-289 | The manifest lists exactly the hours with events with matching counts; its totals and bounds are those of the history |
| LiveHistoryPublication.ManifestTellsAll | backend/mesh_noroeste/live_history_publication.py:240-289 | What a manifest says of a history in plain terms: which hours, each with how many events and traceroutes, the totals, the first and the last import time, and the hours of each node |
| LiveHistoryPublication.PathReads | backend/mesh_noroeste/live_history_publication.py:55-69 | The path of an hour reads YYYY-MM-DD/HH.json with the date and the hour at which it begins |
| LiveHistoryPublication.FilesMatchManifest | backend/mesh_noroeste/live_history_publication.py:167-289 | Hour files and manifest that agree with one history tell the same: the manifest lists just the hours with a file and the number of its events, and an hour for a node just when an event of that file involves the node |
| LiveHistoryPublication.Cleanup | backend/mesh_noroeste/live_history_publication.py:321-411 | Leaves exactly the files of the aligned hours in which some event was imported, as they were, and counts the others |
| LiveHistoryPublication.PathsTellHoursApart | backend/mesh_noroeste/live_history_publication.py:55-69 | Two hours have the same path only if they are the same hour |
| LiveWindow.FoldEqualsOneWindowingIff | backend/mesh_noroeste/live_pipeline.py:201-294 | Merging any batches one by one, ids being made of packet id and origin, equals one windowing of all of them at the last cutoff if and only if, for each id, its last occurrence since that cutoff is no older than any cutoff from its own batch on and every later occurrence of the id is older than the cutoff of the batch that brings it |
| LiveWindow.FoldEqualsOneWindowing | backend/mesh_noroeste/live_pipeline.py:201-294 | So it is when generation times and import times per id do not go back, and the list then holds each id's last version |
| LiveWindow.MergeExtendsWindow | backend/mesh_noroeste/live_pipeline.py:201-294 | The window over what was seen, merged with a batch, is the window over both |
| LiveWindow.EarlierReimportDiffers | backend/mesh_noroeste/live_pipeline.py:201-294 | An id imported again with an earlier time makes the two differ |
| LiveWindow.ClockGoingBackDiffers | backend/mesh_noroeste/live_pipeline.py:201-294 | A generation time that goes back makes the two differ |
| LiveWindow.MergeLiveDocuments | backend/mesh_noroeste/live_pipeline.py:201-294 | The merged events are the windowed, sorted union with the current document prevailing: exactly the last occurrences that are at most retentionSeconds * 1000000 microseconds old; or why it is refused |
| LiveWindow.BuildEvents | backend/mesh_noroeste/live_pipeline.py:33-89 | The loop builds the document of the poll |
| LiveWindow.DocumentListsFirstViews | backend/mesh_noroeste/live_pipeline.py:33-89 | The document lists the first buildable view of each id, once, in order |
| LiveWindow.DocumentInOrder | backend/mesh_noroeste/live_pipeline.py:33-89 | The document holds exactly the views of the first packets of their ids, by import time, packet id and origin |
| ExperimentStore.StoreObservations | backend/mesh_noroeste/experiment_store.py:394-493 | Each id of the batch holds the last row of the batch with that id, every other row stays, and the ids that were new are counted |
| ExperimentStore.ListedValues | backend/mesh_noroeste/experiment_store.py:64-121 | A radio value is listed if and only if some reading that is not the pair 0/0 has it |
| ExperimentStore.ObservationTells | backend/mesh_noroeste/experiment_store.py:151-307 | Which events are observations, and every column of the row of one, each radio value in the list of its own kind |
| ExperimentStore.ReadingsInOrder | backend/mesh_noroeste/experiment_store.py:64-121 | Stages and their gateways are read in order, and a reading adds its values to the lists |
| ExperimentStore.StoredRows | backend/mesh_noroeste/experiment_store.py:394-532 | Each observed event's row becomes its observation, every other row stays |
| ExperimentStore.RepeatedDocument | backend/mesh_noroeste/experiment_store.py:394-532 | Storing a document whose events a later one brings again leaves no trace after that one |
| ExperimentStore.StoreLiveDocument | backend/mesh_noroeste/experiment_store.py:151-532 | Exactly the Meshtastic events of the experiment's channels with a port are stored, with all columns of their row, and the new ids are counted |
| LiveRunAgreement.CompleteRunAgreesIff | backend/mesh_noroeste/live_runner.py:138-194 | From agreeing files, a complete run leaves an hour file exactly for each hour with events, listing that hour, if and only if no stored event was moved out of an hour that keeps others and is not rewritten |
| LiveRunAgreement.CompleteRunsAgree | backend/mesh_noroeste/live_runner.py:138-194 | When event ids keep their import time, files and manifest agree with the history after every series of complete runs |
| LiveRunAgreement.ManifestHoursHaveFiles | backend/mesh_noroeste/live_runner.py:175-205 | Over attempts stopped anywhere, each bringing the events of those before it again: every hour that the published manifest lists has a file, at every stop |
| LiveRunAgreement.MovedEventStrays | backend/mesh_noroeste/live_runner.py:152-183 | Such a moved event exists whenever one of two events of an hour is imported again in another hour |
| LiveRunAgreement.PrunedHourIsRewritten | backend/mesh_noroeste/live_runner.py:163-173 | An hour that loses rows to pruning and keeps others is the oldest one and is rewritten |
| LiveRunDelivery.CommittedBatchWasDelivered | backend/mesh_noroeste/live_runner.py:115-245 | Over any attempts stopped anywhere: when the cursor moves it moves to the batch's, and all its events are in the history, the live window and the experiment table, unless older than what each keeps |
| LiveRunDelivery.CompleteRunLeaves | backend/mesh_noroeste/live_runner.py:115-245 | After a complete run the history holds every event of the batch, and every earlier event that it does not bring, that is at most 30 * 86400 * 1000000 microseconds old, and nothing older; manifest, report and cursor are up to date |
| LiveRunDelivery.CompleteRunWindow | backend/mesh_noroeste/live_runner.py:206-232 | After a complete run the live document holds every event of the batch that is at most 3600 * 1000000 microseconds old, and is the merge of what it held and the batch |
| LiveRunDelivery.RetryEqualsOneRun | backend/mesh_noroeste/live_runner.py:104-107 | Any attempts that stop anywhere, then a retry that brings their events again at a clock no earlier, leave history and experiment as one run of the retry alone |
| LiveRunDelivery.OverfullHourStopsRetries | backend/mesh_noroeste/live_history_publication.py:167-220 | While each attempt brings the events of those before it again, and would keep more than 5000 events of an hour it brings, every attempt fails and the cursor stays |
| LiveRunDelivery.HistoryKeepsUntilPruned | backend/mesh_noroeste/live_runner.py:144-150 | An event stays unchanged in the history through any attempts until it is brought again or its retention ends |
| LiveRunDelivery.CursorMoveMeansComplete | backend/mesh_noroeste/live_runner.py:238-245 | The cursor moves only in a run that was carried through |
| LiveRunProperties.CursorNeverDecreases | backend/mesh_noroeste/storage.py:2945-3010 | Over any attempts stopped anywhere, the stored cursor never goes back |
| LiveRunProperties.CompletesIff | backend/mesh_noroeste/live_runner.py:115-245 | Exactly when a run is carried through, and the state it then leaves |
| LiveRunProperties.CursorMovesLast | backend/mesh_noroeste/live_runner.py:238-245 | If the cursor changed, every effect before it had succeeded |
| LiveRun.LiveService.RunOnce | backend/mesh_noroeste/live_runner.py:88-255 | The sequence of effects, stopped after any number of them or by the first refusal, leaves exactly the specified state |
| LiveRun.LiveService.HoursOfRun | backend/mesh_noroeste/live_runner.py:152-173 | The hours of the batch and, if rows were pruned, the oldest hour left |
| LiveRun.LiveService.PublishHours | backend/mesh_noroeste/live_runner.py:175-183 | Publishing the hours in order, stopped anywhere |
| LiveRun.LiveService.SaveLiveCursor | backend/mesh_noroeste/storage.py:2945-3010 | Stores the cursor, or refuses one smaller than the stored one and changes nothing |
| LiveRun.NextCursor | backend/mesh_noroeste/ozulo_live_http.py:131-169 | The next cursor is the greatest import time of the page, strictly past the cursor asked with; a page that does not advance is refused; an empty page keeps the cursor |
| Generations.PublicDirectory.Publish | backend/mesh_noroeste/publication.py:960-1117 | Whatever raises and wherever it stops, every state on the way has no manifest or one naming a generation with all seven documents, and is the previous publication or the new one; a failure before the swap leaves the previous one untouched, and rolled back if the handler ran through; when no call raises it publishes and cleans up, unless a generation of that name holds something, and then it is rolled back |
| Generations.PublicationHoldsTheDocuments | backend/mesh_noroeste/publication.py:960-1117 | A publication that ends well leaves a manifest naming a generation with exactly the seven named documents, each complete with its own text |
| Generations.CleanUpLeavesTwelve | backend/mesh_noroeste/publication.py:924-957 | A complete clean-up leaves twelve generations, or all if there are fewer: the new one and those modified last |
| Generations.SafeIsSound | backend/mesh_noroeste/publication.py:960-1117 | A state that keeps the previous publication, or shows the new one, always offers a whole generation |
| Generations.PublicDirectory.Prune | backend/mesh_noroeste/publication.py:924-957 | A complete clean-up keeps the active generation and the newest others, exactly twelve or all there are, each unchanged; a partial one never touches the active one |
| Generations.RetainedArePruned | backend/mesh_noroeste/publication.py:943-957 | Keeping the first of the newest ones keeps none older than one that is removed, and the count is the limit or all |
| Generations.PublicDirectory.Handle | backend/mesh_noroeste/publication.py:1091-1112 | The exception handler removes only what the failed publication made |
| Generations.PublicDirectory.WriteGeneration | backend/mesh_noroeste/publication.py:987-1011 | Writes all documents in the temporary directory only, wherever it stops |
| Generations.PublicDirectory.SwapManifest | backend/mesh_noroeste/publication.py:1037-1071 | The manifest names the new generation in one step or not at all |
| Generations.PublicDirectory.Install | backend/mesh_noroeste/publication.py:1013-1017 | The temporary directory becomes the generation, never in place of one that holds documents |
| Generations.PublicDirectory.RemoveStaleTemporaries | backend/mesh_noroeste/publication.py:912-921 | Touches temporary directories only, wherever it stops |
| Statistics.PercentilesAgreeIff | backend/mesh_noroeste/experiment_analysis.py:115-153 | The two percentile functions agree on a list and a fraction if and only if the list is empty or the fraction is within 0 and 1 |
| Statistics.PercentileAscends | backend/mesh_noroeste/experiment_report.py:100-133 | The percentile ascends with the fraction and stays within the least and the greatest value |
| Statistics.PercentileInterpolates | backend/mesh_noroeste/experiment_report.py:100-133 | At a place of its own the percentile is the sorted value there, and between two places it lies on the line between their values, as far along as the fraction falls |
| Statistics.MedianIsMiddle | backend/mesh_noroeste/experiment_report.py:89-97 | The median is the middle sorted value, or the mean of the two middle ones |
| Statistics.MeanMeans | backend/mesh_noroeste/experiment_report.py:78-86 | The mean of one value is it, and the mean of two lists together is their weighted mean |
| Statistics.HalfIsMedian | backend/mesh_noroeste/experiment_report.py:89-133 | Both percentiles at one half are the median |
| TimeBuckets.BucketsReproduceSummary | backend/mesh_noroeste/experiment_analysis.py:623-849 | For every window and bucket size the bucket counts add up to the summary's, and bucket gateway means weighted by packets give its mean |
| TimeBuckets.BucketsPartition | backend/mesh_noroeste/experiment_analysis.py:667-697 | The groups of the buckets, in order, are the rows |
| TimeBuckets.SeriesTells | backend/mesh_noroeste/experiment_analysis.py:667-849 | The series has one bucket for each interval with a row, ascending, and each tells what it counts, collects and averages of the rows of its interval |
| TimeBuckets.BucketSaysWhatTheSummarySays | backend/mesh_noroeste/experiment_analysis.py:623-849 | A bucket says of its rows, field by field, what the channel summary of the same rows says |
| TimeBuckets.GroupIsInterval | backend/mesh_noroeste/experiment_analysis.py:612-620 | A row is in the bucket whose interval holds it, end excluded |
| TimeBuckets.InItsBucket | backend/mesh_noroeste/experiment_analysis.py:612-620 | A bucket's start is the one multiple of the size whose interval holds the moment |
| TimeBuckets.ExperimentTimeBuckets | backend/mesh_noroeste/experiment_analysis.py:623-849 | One bucket per interval with observations, ascending, summarizing its rows, or why it is refused |
| ExperimentReport.ChannelSummary | backend/mesh_noroeste/experiment_report.py:277-543 | The summary counts and collects exactly the selected rows; `SummaryTells` says what each of its fields then is |
| ExperimentReport.SummaryTells | backend/mesh_noroeste/experiment_report.py:277-543 | In each spread of a list that is not empty, with s its values sorted: p10 <= median <= p90, all within s, p10 at index k and p90 at index 9k of 10k + 1 values, the median at half; the mean, the samples, and each counter as the number of rows, or the sum of samples, that its name says |
| ExperimentReport.CountersCount | backend/mesh_noroeste/experiment_report.py:297-460 | What each counter counts |
| ExperimentReport.SelectedRows | backend/mesh_noroeste/experiment_report.py:185-274 | Which rows a query selects: the start included, the end not, and the ids it asks for without the blanks around them |
| ExperimentReport.CountIsOfIndexes | backend/mesh_noroeste/experiment_report.py:277-543 | A count is the number of rows with the property |
| ExperimentReport.ListedInOrder | backend/mesh_noroeste/experiment_report.py:268-272 | A table is in the order of the query exactly when it ascends by import time and, at one time, by the text of the event ids |
| ExperimentReport.SelectedStaysSorted | backend/mesh_noroeste/experiment_report.py:185-274 | A query keeps the order of the table |
| TerritorialReport.ReportAddsUp | backend/mesh_noroeste/experiment_report.py:629-1140 | Every emitter falls in exactly one of five groups; assigned, ambiguous and other packets are all packets; packets and nodes summed over municipalities, and over provinces, are the assigned ones |
| TerritorialReport.ReportTells | backend/mesh_noroeste/experiment_report.py:629-1140 | All that a report says, in terms of rows and places: counts, shares, provinces and municipalities with their emitters and packets, the lists of claimed and unclaimed emitters, and the order of each list |
| TerritorialReport.PlaceTells | backend/mesh_noroeste/experiment_report.py:691-922 | Where an emitter falls: in the municipality that holds its longitude and latitude, in the only one near its cell, among several, or outside |
| TerritorialReport.UnlocatedTells | backend/mesh_noroeste/experiment_report.py:691-750 | An emitter without a published node or without a position is unlocated |
| TerritorialReport.ReportTotalsAgreeIff | backend/mesh_noroeste/experiment_report.py:1019-1061 | The packets of a report's three groups add up to its total if and only if as many rows are asked for again by a further group as are asked for by none, whatever the ids |
| TerritorialReport.TotalsAgreeIff | backend/mesh_noroeste/experiment_report.py:1019-1061 | The packets of three groups add up to the total, however the emitters are divided among them, if and only if no emitter id is blank or has blanks around it |
| TerritorialReport.SummariesCoverTheirEmittersIff | backend/mesh_noroeste/experiment_report.py:217-246 | A summary limited to some emitters covers exactly their rows if and only if no emitter id is blank or has blanks around it |
| TerritorialReport.BuildReport | backend/mesh_noroeste/experiment_report.py:629-1140 | The report says what its places and rows say, its groups and the lists of the claimed and the unclaimed emitters complete and in order, with what is published of them, or some emitter cannot be classified |
| TerritorialReport.AssignEmitters | backend/mesh_noroeste/experiment_report.py:691-922 | Each emitter is put in the set and the groups of its place, and in no other |
| TerritorialReport.EmitterIds | backend/mesh_noroeste/experiment_report.py:547-572 | The emitters of the window, once each, in order |
| ComparisonWindow.Compare | backend/mesh_noroeste/experiment_report.py:1212-1327 | The window is exactly the moments that both channels' observations span; it is missing when a channel has none or they do not overlap |
| ComparisonWindow.AskedRows | backend/mesh_noroeste/experiment_report.py:1330-1400 | Which rows the report is about: those of its channel, from the start and before the end |
| ComparisonWindow.RowsWithin | backend/mesh_noroeste/experiment_report.py:1290-1305 | Which rows a comparison counts |
| ComparisonWindow.MissingChannels | backend/mesh_noroeste/experiment_report.py:1230-1260 | The channels named as missing are those without rows |
| ComparisonWindow.BuildExperimentReport | backend/mesh_noroeste/experiment_report.py:1330-1500 | For any bounds: both channels' summaries and time series tell of the rows within the bounds, each series adds up to its summary, the comparison counts exactly those rows that lie in its window, and the territorial part, if it is asked for, counts the same packets; or the bounds are refused or an emitter cannot be classified |
| ComparisonWindow.WindowCountsItsEnds | backend/mesh_noroeste/experiment_report.py:1290-1305 | Each end of a window is the moment of an observation that it counts |

## Left out

- Territories.BoxAgreesWithRays: says nothing of points within the tolerance outside the box; `BoxChangesAnswerIff` covers them.
- Segments.SegmentsIntersectIffShareAPoint: with the tolerance read as zero; with 1e-12 the test also accepts near misses.
- Territories.PolygonTestIffMeets: with the tolerance read as zero, as above.
- RayCasting.RotationInvariance: in exact arithmetic; floating-point rounding may differ between the two starts.
- LiveRunDelivery.RetryEqualsOneRun: speaks of the history and the experiment tables; hour files, manifest and live document after a failed attempt are rewritten later and not compared.
- LiveRunAgreement.CompleteRunsAgree: speaks of complete runs; after a run cut short between pruning and publishing, the hour files may disagree until later runs rewrite them.
- LiveRun.LiveService.RunOnce: each effect is one step; a stop inside a database transaction or between two file removals of one clean-up is not a separate state. The document builder and the poller are inputs, and the report stands for the experiment table it was built from.
- Retention.PruneRemovesExactlyTheExpired: assumes the active window no longer than the historical one, as the configuration demands; names and positions of the remaining nodes may change, since old rows may be their only carrier.
- Consolidation.MergeObservations: observations are well formed and levels of optional values are as the adapters leave them; names of fields stand for the columns and dictionary keys.
- Consolidation.IdTextIsUnambiguous: ids are kept as network and source id; lower case, hexadecimal digits and blanks are those of ASCII throughout.
- ObservationTables.ObservationTable.Save: normalization and type checks of the arguments, and the neighbour and observer tables, are not modelled.
- NodePurge.EdgePurgeForgetsExactlyTheNode: for source ids without colons; with colons `UntouchedIsReadmittedIff` says what becomes of the connections that do not touch the node.
- RayCasting.ConstantOffTheBorder: with the tolerance read as zero, and so are Classification.ExactMeaning, Classification.InexactMeaning and Territories.RingTestIffOnBorder.
- Classification.ExactMeaning: with the tolerance read as zero, as above.
- Classification.InexactMeaning: with the tolerance read as zero, as above.
- ExperimentStore.StoreLiveDocument: ids and import times are those of a well-formed live event; numbers of a wrong type are read as missing.
- SourceRuns.SourceRunTable.Finish: types of the arguments and parsing of the end time are not modelled.
- ComparisonWindow.BuildExperimentReport: the texts of dates and the fixed notes of the document are not in it.
- Generations.PublicDirectory.Publish: one publication at a time, as its lock ensures; file modes, the lock file and what fsync makes durable are not modelled. Drafts of the manifest left by a stop stay, as in the code.
- LiveHistoryPublication.Cleanup: foreign files in the history directory are outside the model, and so are names with non-ASCII digits.
- LiveHistory.LiveHistoryStore.SaveEvents: the stored columns beyond those queried, and the type checks, are not modelled.
- TerritorialReport.ReportAddsUp: for emitter ids without blanks around them; `Strip` knows the ASCII blanks only.
- Statistics.PercentilesAgreeIff: over exact reals; values are finite.
- Timestamps.NormalizedOrder: dates with a zone; parsing of texts and epoch numbers is not modelled.
- Floating-point rounding everywhere: geometry and statistics use exact reals.
- SQLite, schema migrations, JSON texts, HTTP clients, cookies, source adapters and their field checks: plumbing and long chains of single checks.
- Statistics of networks, neighbour and observer documents, configuration warnings, the frontend, the command line and the spreadsheet writers: they would only add easy members.
