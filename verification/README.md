# geofa_sync in Dafny

A model of the core of `geofa_sync`, the tool that keeps a municipality's
facility register (VK) and the national GeoFA register in step.
The model covers:

- the VK store: the creation-date query over the three facility layers and
  the write-back of a GeoFA object id into one row;
- the GeoFA store: creating one facility object in the layer that its
  geometry kind selects;
- `DatabaseSync.sync_new_objects`: fetch, keep the objects without a GeoFA
  id, create them in GeoFA, write the new ids back, count;
- the two cloners that build local GeoPackage copies: the VK clone, which
  copies the feature classes that schema files name, and the GeoFA clone,
  which merges three GeoPackages.

A GeoPackage is a `Container`: a map from layer names to layers. A layer is
a set of column names and a sequence of records. A record maps column names
to values, and a column it lacks reads as null. Timestamps are seconds since
the Unix epoch, in UTC. The uuid each created object draws is a parameter
`newId: nat -> string`, indexed by the object's position in the batch.

Modules: `Wrappers` (Option/Result), `Text` (strip, split, replace, `str(int)`),
`Tables`, `Vk`, `Geofa`, `DbSync`, `VkClone`, `GeofaClone`, and `SyncFixes`.
`SyncFixes` holds the corrected pipeline and the runs that show the two
findings.

Where the code does not do what its own comments say, the model follows the
code:

- The comments call `fid` the feature id, the primary key of the object in
  its layer (sync/vk.py:218 and 230; "DataFrame index is the FID" at
  sync/db_sync.py:148). The query's result does not keep each row's layer
  position, though. The concatenation renumbers the rows, and the
  write-back uses that new number as the row position (finding 1).
- `update_objekt_id` documents its `bool` as "True if update was
  successful" (sync/vk.py:222). The caller ignores it, so a `False` counts
  as a success (finding 2).

The model also keeps one more behaviour of the code as written. In the VK
clone, a schema file that exists but cannot be read, or that lacks a text
`name`, does not just skip one feature class. The exception handler names
the still-unbound `table_name`, so the handler itself raises and the run
ends at that file (`VkClone.ClonePlanStopsAtEscape`).

## Model

| member | source | states |
|---|---|---|
| Tables.WriteLayer | database/geofa_clone/database.py:31 | `to_file` with a layer name creates the file if needed and replaces that one layer; every other layer stays |
| Tables.ApplyWritesKeys | database/geofa_clone/database.py:18-31 | after a series of layer writes, a layer exists iff it existed before or some write named it |
| Tables.ApplyWritesLastWins | database/geofa_clone/database.py:31 | the last write to a name decides that layer's content |
| Tables.ApplyWritesFromSomeWrite | database/vk_clone/database.py:51 | every layer of a freshly written file carries the content of some write to that name |
| Text.TrimStart | sync/db_sync.py:110 | leading-whitespace removal drops only whitespace and leaves a non-space first character |
| Text.TrimEnd | sync/db_sync.py:110 | trailing-whitespace removal, symmetric to TrimStart |
| Text.Strip | sync/db_sync.py:110 | `s.strip()` is no longer than `s` and neither starts nor ends with whitespace |
| Text.StripEmptyIff | sync/db_sync.py:110 | `s.strip() == ""` iff `s` is all whitespace (the empty string included) |
| Text.LastSegment | database/vk_clone/database.py:43 | no contract of its own; `Text.LastSegmentShape` and `Text.LastSegmentOfJoin` state what `split(sep)[-1]` gives |
| Text.LastSegmentShape | database/vk_clone/database.py:43 | `split(sep)[-1]` holds no separator, is a suffix of the input, and is preceded by the separator unless it is the whole input |
| Text.LastSegmentOfJoin | database/vk_clone/database.py:43 | splitting `prefix + sep + name` gives back `name` when `name` has no separator |
| Text.RemoveAll | database/geofa_clone/database.py:26 | `replace(pat, "")` never lengthens the string; `Text.RemoveAllAbsent` and `Text.RemoveAllKeepsHead` state what it removes |
| Text.RemoveAllAbsent | database/geofa_clone/database.py:26 | `replace(pat, "")` leaves a string without `pat` unchanged |
| Text.RemoveAllKeepsHead | database/geofa_clone/database.py:26 | a prefix without `pat`'s first character survives `replace(pat, "")` untouched |
| Text.NatToString | sync/db_sync.py:96 | `str(n)` of a natural is non-empty decimal digits without a leading zero |
| Text.IntToString | sync/db_sync.py:96 | `str(i)` is non-empty, starts with `-` iff `i` is negative, and every other character is a decimal digit |
| Text.ParseNatToString | sync/db_sync.py:137 | reading the digits that `str(n)` prints gives `n` back |
| Text.IntToStringInjective | sync/db_sync.py:96 | distinct integers print differently |
| Vk.LayersToQuery | sync/vk.py:143-150 | a missing or empty layer name scans the three facility layers in their fixed order; any other name scans exactly that one layer; never empty, no duplicates |
| Vk.SelectRows | sync/vk.py:169-183 | the selection keeps rows of the layer whose `oprettet` lies in the window, with their position as index and in source order |
| Vk.SelectRowsComplete | sync/vk.py:175-180 | every row whose `oprettet` lies in the window is selected |
| Vk.Scan | sync/vk.py:164-188 | the scan succeeds iff every queried layer exists; every row it returns was read from a queried layer with `oprettet`, in the window; the columns are exactly the union of the columns of the layers the rows come from (`pd.concat` of the non-empty per-layer frames) |
| Vk.ScanSourceOrdered | sync/vk.py:164-188 | the rows of one layer keep their source order |
| Vk.ScanLayerOrdered | sync/vk.py:164-194 | the rows come layer by layer, in the order the layers are queried, as the concatenation of the per-layer results gives them |
| Vk.ScanComplete | sync/vk.py:164-188 | every in-window row of every queried layer with `oprettet` is returned |
| Vk.Renumber | sync/vk.py:191-194 | `concat(ignore_index=True)` relabels the rows 0..n-1 and keeps everything else |
| Vk.GetObjectsByDate | sync/vk.py:108-205 | success iff every queried layer exists; row i has index i and is a stored in-window row; rows of one layer keep their order and the layers follow in query order; with rows, the columns are exactly the union of the columns of the layers the rows come from; with no rows the columns are the first layer's |
| Vk.GetObjectsByDateComplete | sync/vk.py:108-205 | the query misses no in-window row of a queried layer that has `oprettet` |
| Vk.UpdateObjektId | sync/vk.py:207-260 | `True` iff the layer exists and holds row `fid`; then only that row's `objekt_id` changes; otherwise nothing is written |
| Geofa.InferLayer | sync/geofa.py:68-88 | Point and MultiPoint go to the point layer, Polygon and MultiPolygon to the polygon layer, LineString and MultiLineString to the line layer; every other geometry kind raises ValueError naming the kind; a value that is not a geometry fails too, as reading `geom_type` off it raises |
| Geofa.RoutingByFamily | sync/geofa.py:81-86 | two geometries share a layer iff they belong to the same family |
| Geofa.TemanavnFor | sync/geofa.py:118-123 | `temanavn` is set iff the code is 5800, 5801 or 5802, and then it is `t_<layer>_t` for the GeoFA layer of that code (`t_5800_fac_pkt_t`, `t_5801_fac_fl_t`, `t_5802_fac_li_t`) |
| Geofa.CreateObject | sync/geofa.py:90-152 | success iff the geometry routes to an existing layer; then that layer gains one row at the end holding the new id, code, geometry and `temanavn`, with nulls elsewhere; no other layer changes |
| Geofa.CreateObjectRoutingIgnoresTemakode | sync/geofa.py:106 | the code passed in never changes which layer grows |
| Geofa.MismatchedCodeNotValidated | sync/geofa.py:113-123 | a polygon passed with code 5800 lands in the polygon layer carrying the point layer's `temanavn` |
| DbSync.LayerNameFromTemakode | sync/db_sync.py:85-96 | no contract of its own; `DbSync.CodeOfLayerName`, `DbSync.FacilityLayerNames` and `DbSync.LayerNameIsVkLayerIff` state the names it builds |
| DbSync.CodeOfLayerName | sync/db_sync.py:95-96 | the code can be read back from the layer name built from it |
| DbSync.FacilityLayerNames | sync/db_sync.py:95-96 | 5800, 5801 and 5802 name the VK point, polygon and line layers |
| DbSync.LayerNameIsVkLayerIff | sync/db_sync.py:95-96 | a code names a VK layer iff it is 5800, 5801 or 5802; every code other than 5800 and 5801 gets the name `GeoFA_<code>_fac_li`, which is a VK layer only for 5802 |
| DbSync.PrefixedLayerNames | sync/vk.py:143-147 | each VK layer is the GeoFA layer of the same theme behind `GeoFA_` |
| DbSync.LayerNamesAgree | sync/db_sync.py:137-143 | when code and geometry agree, the VK layer named from the code is the GeoFA layer chosen from the geometry, prefixed |
| DbSync.NeedsSync | sync/db_sync.py:98-110 | no contract of its own; `DbSync.NeedsSyncIff` states which objects it selects |
| DbSync.NeedsSyncIff | sync/db_sync.py:110 | an object needs syncing iff its `objekt_id` is null or only whitespace |
| DbSync.FilterRows | sync/db_sync.py:110 | the mask keeps exactly the rows that need syncing |
| DbSync.FilterRowsConcat | sync/db_sync.py:110 | filtering distributes over concatenation, so the kept rows stay in order |
| DbSync.FilterRowsSourceOrdered | sync/db_sync.py:110 | filtering keeps each layer's rows in source order |
| DbSync.FilterObjectsWithoutId | sync/db_sync.py:98-110 | the filtered frame has the same columns and exactly the rows that need syncing |
| DbSync.ParseTemakode | sync/db_sync.py:137 | `int()` of an integer cell is that integer; a text cell parses only if it holds a digit; every other cell raises |
| DbSync.ParseTemakodePrinted | sync/db_sync.py:137 | `int(str(k)) == k` |
| DbSync.Attempt | sync/db_sync.py:135-162 | one iteration succeeds iff the code parses and `create_object` finds its layer; it then records the entry and only appends to GeoFA |
| DbSync.CreateBatch | sync/db_sync.py:134-164 | the loop never removes or rewrites existing GeoFA rows and yields at most one entry per object |
| DbSync.CreateBatchGrowth | sync/db_sync.py:134-164 | each GeoFA layer grows by exactly the number of creatable objects whose geometry routes to it |
| DbSync.CreateBatchStoresId | sync/db_sync.py:134-164 | each entry comes from a creatable object, and its new id is the `objekt_id` of a row the loop appended to the layer that object's geometry routes to |
| DbSync.MarkedComplete | sync/db_sync.py:134-162 | every row that can be created is selected |
| DbSync.DescribeAt | sync/db_sync.py:146-154 | entry t of the reference list describes the t-th creatable row |
| DbSync.CreateBatchDetails | sync/db_sync.py:134-164 | the loop's entries are exactly the creatable rows' entries, in order, each with the uuid drawn at its position |
| DbSync.CreateObjectsInGeofa | sync/db_sync.py:112-164 | the entries are the reference entries, keyed by frame index; the layers stay; each layer keeps its rows as a prefix and gains one row per creatable object routed to it |
| DbSync.CountPatchOutcomes | sync/db_sync.py:189-204 | errors are exactly the calls that raised and successes all the others; errors are 0 iff no call raised |
| DbSync.FalseCountedAsSuccess | sync/db_sync.py:189-194 | a call that returns `False` adds a success and no error |
| DbSync.PatchAll | sync/db_sync.py:189-193 | each call returns and reports `True` iff its layer and row exist; layers and their lengths stay |
| DbSync.PatchAllFrame | sync/vk.py:245-251 | a row that no entry aims at keeps its cells |
| DbSync.PatchAllSetsEach | sync/vk.py:245-251 | with distinct targets, each entry's row ends holding its new id |
| DbSync.PatchAllOnlyObjektId | sync/vk.py:245-251 | the write-back changes no cell but `objekt_id` |
| DbSync.UpdateVkWithGeofaIds | sync/db_sync.py:166-204 | every entry counts as a success and the error count is 0; layers and their lengths stay |
| DbSync.SyncSince | sync/db_sync.py:227-299 | the run succeeds iff the fetch does and a non-empty frame has `objekt_id`; totals and already-synced come from the fetch; entries are the reference entries; VK is the write-back of those entries and GeoFA the store the creation loop leaves |
| DbSync.SyncNewObjects | sync/db_sync.py:206-299 | a successful run reports no errors and counts every entry as newly synced |
| DbSync.EmptyFetchReportsZero | sync/db_sync.py:251-258 | an empty fetch reports all-zero counters and touches neither store |
| DbSync.DefaultThreshold | sync/db_sync.py:236-246 | without a date the run is the run from 2000-01-01 |
| DbSync.FrameDetailsDescribeRows | sync/db_sync.py:146-154 | each entry's `fid` is the frame index of a row that needed syncing and could be created, and its layer name is named from that row's code |
| DbSync.SyncDetailsDescribeObjects | sync/db_sync.py:206-299 | each reported entry stems from a fetched object that needed syncing and could be created |
| VkClone.TableName | database/vk_clone/database.py:43 | no contract of its own; `VkClone.TableNameShape` states what it gives |
| VkClone.TableNameShape | database/vk_clone/database.py:43 | the table name holds no dot and is the tail of the qualified name after its last dot |
| VkClone.TableNameOfQualified | database/vk_clone/database.py:43 | `owner.table` maps to `table` |
| VkClone.TableNameUndotted | database/vk_clone/database.py:43 | a name without a dot maps to itself |
| VkClone.CloneOne | database/vk_clone/database.py:32-58 | each schema file is skipped iff absent, escapes iff unreadable, is caught iff its table is missing, and is otherwise copied under its table name |
| VkClone.ClonePlanRaises | database/vk_clone/database.py:54-58 | the run raises iff some schema file is unreadable |
| VkClone.ClonePlan | database/vk_clone/database.py:77-81 | never more writes than schema files; `VkClone.ClonePlanRaises` and the lemmas below state which writes |
| VkClone.ClonePlanVerbatim | database/vk_clone/database.py:47-51 | every write copies a feature class of the geodatabase verbatim under its own name |
| VkClone.ClonePlanWritesEach | database/vk_clone/database.py:77-81 | every table that a reached schema names and the geodatabase holds is written |
| VkClone.ClonePlanWritesOnlyNamed | database/vk_clone/database.py:77-81 | every write stems from a reached schema naming that table |
| VkClone.ClonePlanSkipsMissing | database/vk_clone/database.py:78-81 | an absent schema file changes nothing |
| VkClone.ClonePlanStopsAtEscape | database/vk_clone/database.py:54-58 | nothing after an unreadable schema file is processed, and the run raises |
| VkClone.RunClone | database/vk_clone/database.py:60-85 | without a geodatabase nothing changes; otherwise it raises iff some schema is unreadable and every output layer is the geodatabase's layer of that name |
| VkClone.RunCloneLayers | database/vk_clone/database.py:60-85 | the output holds a layer iff a reached schema names it and the geodatabase holds it |
| VkClone.RunCloneRebuilds | database/vk_clone/database.py:71-73 | the old output is removed, so the prior output makes no difference and a second run reproduces the first |
| GeofaClone.OutputFile | database/geofa_clone/database.py:12 | a non-empty output path is used as given; a missing or empty one gives `geofa.gpkg`; the result is never empty |
| GeofaClone.DestinationName | database/geofa_clone/database.py:26 | no contract of its own; the lemmas below state the layer names it gives |
| GeofaClone.DestinationNameOfPath | database/geofa_clone/database.py:26 | `<dir><sep><stem>.gpkg` gives layer `<stem>` |
| GeofaClone.DestinationNameWithoutSeparator | database/geofa_clone/database.py:26 | a bare `<stem>.gpkg` gives `<stem>` |
| GeofaClone.DestinationNameRemovesEvery | database/geofa_clone/database.py:26 | every `.gpkg` in the base name is removed, not only the trailing one |
| GeofaClone.CopyNameLosesInnerExtension | database/geofa_clone/database.py:26 | `a.gpkg_copy.gpkg` becomes layer `a_copy` |
| GeofaClone.ThemeFileNames | database/geofa_clone/database.py:7-11 | with the Windows separator each of the three theme files `<dir>\<stem>.gpkg` names the layer `<stem>`: `5800_fac_pkt`, `5801_fac_fl` or `5802_fac_li` |
| GeofaClone.PosixKeepsDirectory | database/geofa_clone/database.py:26 | with `/` as the separator the backslash path stays in the layer name |
| GeofaClone.FileWrites | database/geofa_clone/database.py:21-31 | one write per listed layer, in order, all under the file's destination name |
| GeofaClone.ClonePlan | database/geofa_clone/database.py:18-31 | no contract of its own; `GeofaClone.ClonePlanRaises`, `GeofaClone.ClonePlanWriteSource` and `GeofaClone.ClonePlanSplit` state it |
| GeofaClone.ClonePlanRaises | database/geofa_clone/database.py:18-19 | the run raises iff some source file cannot be opened |
| GeofaClone.ClonePlanWriteSource | database/geofa_clone/database.py:18-31 | every write carries a reached file's destination name and one of its layers |
| GeofaClone.ClonePlanSplit | database/geofa_clone/database.py:18 | the writes of an opened prefix of files come first |
| GeofaClone.CloneGeofaDatabase | database/geofa_clone/database.py:6-33 | the output path defaults to `geofa.gpkg`; the run raises iff a file cannot be opened; every output layer is a layer of a reached file under that file's name |
| GeofaClone.CloneGeofaLayers | database/geofa_clone/database.py:18-31 | the output holds a layer iff a reached file that lists a layer has that destination name |
| GeofaClone.LastLayerWins | database/geofa_clone/database.py:21-31 | when no later file shares its name, a file's last listed layer is what the output holds |
| SyncFixes.CountPatchOutcomesIntended | sync/db_sync.py:189-204 | corrected counting: successes are exactly the calls that returned `True` and errors all the others; errors are 0 iff every call returned `True` |
| SyncFixes.CountingsAgreeWhenAllWritten | sync/db_sync.py:189-204 | when every call returns `True`, both countings agree |
| SyncFixes.FalseReturnMiscounted | sync/vk.py:241-243 | one `False` return: counted (1, 0) as written, (0, 1) as intended |
| SyncFixes.UpdateVkWithGeofaIdsIntended | sync/db_sync.py:166-204 | corrected write-back: errors are 0 iff every entry's row exists; the store is the one the code leaves |
| SyncFixes.SyncSinceIntended | sync/db_sync.py:206-299 | corrected run: entries name each object's own layer and row; same success condition and totals; VK is the write-back of those entries |
| SyncFixes.SyncNewObjectsIntended | sync/db_sync.py:206-299 | the corrected run, too, reports no errors and counts every entry as newly synced, since each entry's row exists |
| SyncFixes.CreateBatchStoreIgnoresKeying | sync/db_sync.py:134-164 | the correction changes only the entries, never what is written to GeoFA |
| SyncFixes.OriginEntryTargetsFetchedRow | sync/vk.py:164-196 | keyed by origin, every entry aims at a stored row that was fetched and needed syncing |
| SyncFixes.OriginEntriesDistinct | sync/db_sync.py:146-154 | keyed by origin, no two entries aim at the same row |
| SyncFixes.IntendedWriteBackMarksEachObject | sync/db_sync.py:281-286 | as intended, each reported object's own row ends holding its new id |
| SyncFixes.IntendedCountsAllWrites | sync/db_sync.py:284-292 | as intended, every entry is written back and counted, with no errors |
| SyncFixes.IntendedKeepsGeofaSide | sync/db_sync.py:281-294 | both runs succeed together, report the same totals and write the same GeoFA store |
| SyncFixes.ExampleFetch | sync/vk.py:191-196 | in the example, the one fresh object sits at row 1 of its layer but gets index 0 |
| SyncFixes.AsWrittenWritesBackToWrongRow | sync/db_sync.py:146-150 | as written, the example run overwrites the synced object's id at row 0, leaves the fresh object without one, and reports one success |
| SyncFixes.IntendedWritesBackToFetchedRow | sync/db_sync.py:146-150 | as intended, the same run keeps id "a" and gives the fresh object its id |

## Left out

- I/O itself is not modelled: reading and writing files, `fiona.listlayers`, `os.path.exists` and `os.remove`. Files are values, and "exists" is an `Option`.
- `uuid.uuid4()` is an oracle parameter `newId`. The model does not assume the ids are distinct.
- The printing, the `verbose` flag and the summary printout are not modelled. Nothing in them changes results.
- The `RuntimeError` for a missing connection is not modelled. The context-manager plumbing and the SQLAlchemy engine are also left out.
- The two stubs `sync_updated_objects` and `sync_updated_at` (sync/db_sync.py:301-336) do nothing yet.
- `main.py`, database/utils.py and sync/utils.py are entry-point glue and are not part of this model.
- Timezone handling is left out. Every timestamp is already in UTC seconds, so the `tzinfo` branches (sync/vk.py:153-156) are the identity.
- `pd.to_datetime` of a non-datetime `oprettet` column is not modelled. A cell that is not a timestamp is never in the window.
- dtype matching (sync/geofa.py:129-131) and CRS are not modelled. Neither affects which rows or values are written.
- DbSync.ParseTemakode: `int()` also accepts underscores between digits, non-ASCII digits and floats (which it truncates). The model accepts only ASCII digits with an optional sign, or an integer cell.
- `os.path.basename` is modelled with one separator, a parameter. Windows drive letters and the alternative separator `/` on Windows are left out.
- In `_clone_layer`, a failure of `to_file` after a successful read is caught like a failed read. The model treats every write as succeeding.
- The model does not cover an output path equal to one of the GeoFA source files.
- DbSync.CreateBatch: its contract speaks of the store only. The entries are stated by DbSync.CreateBatchDetails, the growth of each layer by DbSync.CreateBatchGrowth and where each id lands by DbSync.CreateBatchStoresId.
- DbSync.CreateBatchGrowth: the growth is stated layer by layer. That the layers together gain exactly as many rows as there are entries is not summed over the map.
- DbSync.UpdateVkWithGeofaIds: its contract gives the counts and the store's shape only. The row contents are stated by DbSync.PatchAllSetsEach, DbSync.PatchAllFrame and DbSync.PatchAllOnlyObjektId.

## Findings

| source | as written | input that shows it | evidently intended | confidence | as-written member | corrected member |
|---|---|---|---|---|---|---|
| sync/db_sync.py:148 | The entry's `fid` is the frame index, which `pd.concat(..., ignore_index=True)` (sync/vk.py:191-194) has renumbered from 0. The layer is named from the code (sync/db_sync.py:95-96). So the write-back hits whatever row sits at that position. | VK point layer with row 0 synced as "a" (created 1970) and row 1 unsynced (created 2000-01-01, code 5800, a point); run without a date. The fresh row gets index 0. | Write the new id into the row the object was read from: its own layer and row position. | not executed | SyncFixes.AsWrittenWritesBackToWrongRow | SyncFixes.IntendedWritesBackToFetchedRow |
| sync/db_sync.py:189-196 | `update_objekt_id` reports a missing row by returning `False` (sync/vk.py:241-243, 258-260) and never raises. The loop counts every return as a success, so `errors` is always 0. | One entry whose `fid` is outside its layer: the call returns `False` and the run counts 1 success, 0 errors. | Count a `False` return as an error. | not executed | SyncFixes.FalseReturnMiscounted | SyncFixes.CountPatchOutcomesIntended |
