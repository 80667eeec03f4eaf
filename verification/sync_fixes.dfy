/** The synchronisation as its documentation describes it, beside the code
    as written (`DbSync`): the write-back aims at the VK row each object was
    read from, and a write-back that writes nothing counts as an error. */
module SyncFixes {
  import opened Wrappers
  import opened Tables
  import Vk
  import opened DbSync

  // ---------------------------------------------------------------------
  // Counting the write-backs
  // ---------------------------------------------------------------------

  /** Intended counting: only a call that wrote its row is a success; a
      returned `False` and an exception are errors. */
  function CountPatchOutcomesIntended(outcomes: seq<PatchOutcome>): (c: Counts)
    ensures c.success + c.errors == |outcomes|
    ensures c.success == multiset(outcomes)[Returned(true)]
    ensures c.errors == 0 <==> forall i :: 0 <= i < |outcomes| ==> outcomes[i] == Returned(true)
  {
    if |outcomes| == 0 then Counts(0, 0)
    else
      assert outcomes == outcomes[..|outcomes| - 1] + [outcomes[|outcomes| - 1]];
      var c := CountPatchOutcomesIntended(outcomes[..|outcomes| - 1]);
      if outcomes[|outcomes| - 1] == Returned(true) then Counts(c.success + 1, c.errors)
      else Counts(c.success, c.errors + 1)
  }

  /** When every call wrote its row, both countings agree. */
  lemma {:induction false} CountingsAgreeWhenAllWritten(outcomes: seq<PatchOutcome>)
    requires forall i :: 0 <= i < |outcomes| ==> outcomes[i] == Returned(true)
    ensures CountPatchOutcomesIntended(outcomes) == CountPatchOutcomes(outcomes)
  {
    if |outcomes| > 0 {
      CountingsAgreeWhenAllWritten(outcomes[..|outcomes| - 1]);
    }
  }

  /** One call that returns `False`: the code counts a success, the intended
      counting an error. */
  lemma FalseReturnMiscounted()
    ensures CountPatchOutcomes([Returned(false)]) == Counts(1, 0)
    ensures CountPatchOutcomesIntended([Returned(false)]) == Counts(0, 1)
  {
    assert [Returned(false)][..0] == [];
  }

  /** `_update_vk_with_geofa_ids` with the intended counting: the successes
      are exactly the entries whose row exists, and the store is the one the
      code leaves. */
  function UpdateVkWithGeofaIdsIntended(vk: Container, ds: seq<Detail>): (r: Patched)
    ensures r.counts.success + r.counts.errors == |ds|
    ensures r.counts.errors == 0 <==> forall i :: 0 <= i < |ds| ==> Targets(vk, ds[i])
    ensures r.store == UpdateVkWithGeofaIds(vk, ds).store
  {
    var run := PatchAll(vk, ds);
    Patched(CountPatchOutcomesIntended(run.outcomes), run.store)
  }

  // ---------------------------------------------------------------------
  // The pipeline keyed by origin
  // ---------------------------------------------------------------------

  /** `sync_new_objects` once the threshold is fixed, with each entry aimed
      at the VK layer and row the object was read from, and the intended
      counting. */
  function SyncSinceIntended(vk: Container, geofa: Container, since: int, newId: nat -> string): (r: Result<SyncRun>)
    ensures var fetched := Vk.GetObjectsByDate(vk, since, None, None);
      r.Success? <==> (fetched.Success?
        && (|fetched.value.rows| == 0 || Vk.ObjektIdColumn in fetched.value.columns))
    ensures r.Success? ==>
      var fetched := Vk.GetObjectsByDate(vk, since, None, None).value;
      var res := r.value.result;
      && res.totalObjects == |fetched.rows|
      && res.alreadySynced == |fetched.rows| - |FilterRows(fetched.rows)|
      && res.newlySynced + res.errors == |res.syncDetails|
      && (|FilterRows(fetched.rows)| == 0 ==>
            res.newlySynced == 0 && res.syncDetails == [] && r.value.vk == vk && r.value.geofa == geofa)
      && (|FilterRows(fetched.rows)| > 0 ==>
            && res.syncDetails == ExpectedDetails(FilterRows(fetched.rows), NavnColumn in fetched.columns,
                                                  geofa.Keys, newId, 0, SourceOrigin)
            && r.value.vk == PatchAll(vk, res.syncDetails).store)
  {
    var fetched :- Vk.GetObjectsByDate(vk, since, None, None);
    if |fetched.rows| == 0 then Success(SyncRun(SyncResult(0, 0, 0, 0, []), vk, geofa))
    else if Vk.ObjektIdColumn !in fetched.columns then Failure(MissingColumn(Vk.ObjektIdColumn))
    else
      var needs := FilterObjectsWithoutId(fetched);
      var already := |fetched.rows| - |needs.rows|;
      if |needs.rows| == 0 then Success(SyncRun(SyncResult(|fetched.rows|, already, 0, 0, []), vk, geofa))
      else
        var batch := CreateBatch(needs.rows, NavnColumn in needs.columns, geofa, newId, 0, SourceOrigin);
        CreateBatchDetails(needs.rows, NavnColumn in needs.columns, geofa, newId, 0, SourceOrigin);
        var patched := UpdateVkWithGeofaIdsIntended(vk, batch.details);
        Success(SyncRun(
          SyncResult(|fetched.rows|, already, patched.counts.success, patched.counts.errors, batch.details),
          patched.store, batch.store))
  }

  /** `sync_new_objects(since_date)` as intended; without a date it fetches
      from 2000-01-01, as the code does. Its entries are all written back,
      so here too every entry is a success and none an error. */
  function SyncNewObjectsIntended(vk: Container, geofa: Container, sinceDate: Option<int>, newId: nat -> string): (r: Result<SyncRun>)
    ensures r.Success? ==>
      && r.value.result.errors == 0
      && r.value.result.newlySynced == |r.value.result.syncDetails|
  {
    var r := SyncSinceIntended(vk, geofa, sinceDate.GetOr(Y2K), newId);
    if r.Success? then IntendedCountsAllWrites(vk, geofa, sinceDate.GetOr(Y2K), newId); r else r
  }

  // ---------------------------------------------------------------------
  // What the correction changes and what it keeps
  // ---------------------------------------------------------------------

  /** The keying only changes the entries, never what is written to GeoFA. */
  lemma {:induction false} CreateBatchStoreIgnoresKeying(rows: seq<Vk.Row>, hasNavn: bool, geofa: Container, newId: nat -> string, next: nat)
    ensures CreateBatch(rows, hasNavn, geofa, newId, next, FrameIndex).store
      == CreateBatch(rows, hasNavn, geofa, newId, next, SourceOrigin).store
    decreases |rows|
  {
    if |rows| > 0 {
      var a := Attempt(rows[0], hasNavn, geofa, newId(next), FrameIndex);
      var b := Attempt(rows[0], hasNavn, geofa, newId(next), SourceOrigin);
      assert a.Success? == b.Success?;
      if a.Success? {
        assert a.value.store == b.value.store;
        CreateBatchTake(rows, hasNavn, geofa, newId, next, FrameIndex, a.value);
        CreateBatchTake(rows, hasNavn, geofa, newId, next, SourceOrigin, b.value);
        CreateBatchStoreIgnoresKeying(rows[1..], hasNavn, a.value.store, newId, next + 1);
      } else {
        CreateBatchSkip(rows, hasNavn, geofa, newId, next, FrameIndex);
        CreateBatchSkip(rows, hasNavn, geofa, newId, next, SourceOrigin);
        CreateBatchStoreIgnoresKeying(rows[1..], hasNavn, geofa, newId, next + 1);
      }
    }
  }

  /** Under origin keying, entry `i` names the VK row that the fetched frame row
      behind draw `draws[i]` was read from. */
  lemma OriginEntry(rows: seq<Vk.Row>, hasNavn: bool, geofaLayers: set<string>, newId: nat -> string, i: nat)
    requires i < |ExpectedDetails(FilterRows(rows), hasNavn, geofaLayers, newId, 0, SourceOrigin)|
    ensures var needs := FilterRows(rows);
      var draws := Marked(CreatableMask(needs, geofaLayers), 0);
      && i < |draws| && draws[i] < |needs|
      && ExpectedDetails(needs, hasNavn, geofaLayers, newId, 0, SourceOrigin)[i].layerName == needs[draws[i]].origin.layer
      && ExpectedDetails(needs, hasNavn, geofaLayers, newId, 0, SourceOrigin)[i].fid == needs[draws[i]].origin.fid
  {
    var needs := FilterRows(rows);
    var draws := Marked(CreatableMask(needs, geofaLayers), 0);
    MarkedDrawable(CreatableMask(needs, geofaLayers), needs, 0);
    DescribeAt(needs, 0, draws, hasNavn, newId, SourceOrigin, i);
  }

  /** Under origin keying every entry aims at a VK row that was fetched and
      needed syncing. */
  lemma OriginEntryTargetsFetchedRow(vk: Container, layers: seq<string>, start: int, rows: seq<Vk.Row>,
                                      hasNavn: bool, geofaLayers: set<string>, newId: nat -> string, i: nat)
    requires forall j :: 0 <= j < |rows| ==> Vk.Fetched(vk, layers, rows[j], start, None)
    requires i < |ExpectedDetails(FilterRows(rows), hasNavn, geofaLayers, newId, 0, SourceOrigin)|
    ensures var d := ExpectedDetails(FilterRows(rows), hasNavn, geofaLayers, newId, 0, SourceOrigin)[i];
      && Targets(vk, d)
      && NeedsSync(vk[d.layerName].rows[d.fid])
      && Vk.InWindow(Get(vk[d.layerName].rows[d.fid], Vk.OprettetColumn), start, None)
  {
    var needs := FilterRows(rows);
    var draws := Marked(CreatableMask(needs, geofaLayers), 0);
    OriginEntry(rows, hasNavn, geofaLayers, newId, i);
    var row := needs[draws[i]];
    assert row in rows && NeedsSync(row.rec);
    var j :| 0 <= j < |rows| && rows[j] == row;
    assert Vk.Fetched(vk, layers, row, start, None);
  }

  /** Under origin keying no two entries aim at the same VK row: the draws
      increase and rows of one layer are kept in source order. */
  lemma OriginEntriesDistinct(rows: seq<Vk.Row>, hasNavn: bool, geofaLayers: set<string>, newId: nat -> string)
    requires Vk.SourceOrdered(rows)
    ensures DistinctTargets(ExpectedDetails(FilterRows(rows), hasNavn, geofaLayers, newId, 0, SourceOrigin))
  {
    var needs := FilterRows(rows);
    var ds := ExpectedDetails(needs, hasNavn, geofaLayers, newId, 0, SourceOrigin);
    var draws := Marked(CreatableMask(needs, geofaLayers), 0);
    FilterRowsSourceOrdered(rows);
    forall a, b | 0 <= a < b < |ds|
      ensures !(ds[a].layerName == ds[b].layerName && ds[a].fid == ds[b].fid)
    {
      OriginEntry(rows, hasNavn, geofaLayers, newId, a);
      OriginEntry(rows, hasNavn, geofaLayers, newId, b);
      assert draws[a] < draws[b];
    }
  }

  /** Run as intended, each reported entry names a VK row that was fetched in
      the window and needed syncing, and after the run that row holds the id
      of the object created for it. */
  lemma IntendedWriteBackMarksEachObject(vk: Container, geofa: Container, since: int, newId: nat -> string, i: nat)
    requires SyncSinceIntended(vk, geofa, since, newId).Success?
    requires i < |SyncSinceIntended(vk, geofa, since, newId).value.result.syncDetails|
    ensures var run := SyncSinceIntended(vk, geofa, since, newId).value;
      var d := run.result.syncDetails[i];
      && Targets(vk, d)
      && NeedsSync(vk[d.layerName].rows[d.fid])
      && Vk.InWindow(Get(vk[d.layerName].rows[d.fid], Vk.OprettetColumn), since, None)
      && d.layerName in run.vk && d.fid < |run.vk[d.layerName].rows|
      && Get(run.vk[d.layerName].rows[d.fid], Vk.ObjektIdColumn) == Str(d.newObjektId)
  {
    var fetched := Vk.GetObjectsByDate(vk, since, None, None).value;
    var ds := SyncSinceIntended(vk, geofa, since, newId).value.result.syncDetails;
    assert |FilterRows(fetched.rows)| > 0;
    OriginEntryTargetsFetchedRow(vk, Vk.AllLayers, since, fetched.rows, NavnColumn in fetched.columns, geofa.Keys, newId, i);
    OriginEntriesDistinct(fetched.rows, NavnColumn in fetched.columns, geofa.Keys, newId);
    PatchAllSetsEach(vk, ds, i);
  }

  /** Run as intended, every entry is written back: all entries count as
      synced and none as an error. */
  lemma IntendedCountsAllWrites(vk: Container, geofa: Container, since: int, newId: nat -> string)
    requires SyncSinceIntended(vk, geofa, since, newId).Success?
    ensures var res := SyncSinceIntended(vk, geofa, since, newId).value.result;
      res.newlySynced == |res.syncDetails| && res.errors == 0
  {
    var fetched := Vk.GetObjectsByDate(vk, since, None, None).value;
    var ds := SyncSinceIntended(vk, geofa, since, newId).value.result.syncDetails;
    if |FilterRows(fetched.rows)| > 0 {
      forall i | 0 <= i < |ds| ensures Targets(vk, ds[i]) {
        OriginEntryTargetsFetchedRow(vk, Vk.AllLayers, since, fetched.rows, NavnColumn in fetched.columns, geofa.Keys, newId, i);
      }
    }
  }

  /** The correction leaves the rest of the run alone: both runs succeed
      together, report the same counters and write the same GeoFA store. */
  lemma IntendedKeepsGeofaSide(vk: Container, geofa: Container, since: int, newId: nat -> string)
    ensures SyncSinceIntended(vk, geofa, since, newId).Success? <==> SyncSince(vk, geofa, since, newId).Success?
    ensures SyncSince(vk, geofa, since, newId).Success? ==>
      var a := SyncSince(vk, geofa, since, newId).value;
      var b := SyncSinceIntended(vk, geofa, since, newId).value;
      && b.geofa == a.geofa
      && b.result.totalObjects == a.result.totalObjects
      && b.result.alreadySynced == a.result.alreadySynced
      && |b.result.syncDetails| == |a.result.syncDetails|
  {
    var fetched := Vk.GetObjectsByDate(vk, since, None, None);
    if fetched.Success? && |fetched.value.rows| > 0 && Vk.ObjektIdColumn in fetched.value.columns {
      var needs := FilterObjectsWithoutId(fetched.value);
      if |needs.rows| > 0 {
        CreateBatchStoreIgnoresKeying(needs.rows, NavnColumn in needs.columns, geofa, newId, 0);
      }
    }
  }

  // ---------------------------------------------------------------------
  // A run that shows the difference
  // ---------------------------------------------------------------------

  const ExamplePoint := Geom(Geometry(Point, [Coord(0, 0)]))

  const ExampleColumns: set<string> := {Vk.OprettetColumn, Vk.ObjektIdColumn, TemakodeColumn, GeometryColumn}

  /** A point object created in 1970 and already synced under id "a". */
  const SyncedRow: Record := map[Vk.OprettetColumn := Time(0), Vk.ObjektIdColumn := Str("a"),
                                 TemakodeColumn := Int(5800), GeometryColumn := ExamplePoint]

  /** A point object created on 2000-01-01 and not synced yet. */
  const FreshRow: Record := map[Vk.OprettetColumn := Time(Y2K), Vk.ObjektIdColumn := Null,
                                TemakodeColumn := Int(5800), GeometryColumn := ExamplePoint]

  /** VK holds both objects in its point layer, synced one first; the other
      two layers are empty. GeoFA has its point layer. */
  const ExampleVk: Container := map[
    Vk.PointLayer := Layer(ExampleColumns, [SyncedRow, FreshRow]),
    Vk.PolygonLayer := Layer({Vk.OprettetColumn}, []),
    Vk.LineLayer := Layer({Vk.OprettetColumn}, [])]

  const ExampleGeofa: Container := map[Geofa.PointLayer := Layer({}, [])]

  /** Of the point layer only the fresh object, at row 1, is in the window. */
  lemma ExamplePointSelection()
    ensures Vk.SelectRows(Vk.PointLayer, [SyncedRow, FreshRow], Y2K, None)
      == [Vk.Row(1, Vk.Origin(Vk.PointLayer, 1), FreshRow)]
  {
    var rows := [SyncedRow, FreshRow];
    assert rows[..1] == [SyncedRow];
    ExampleSyncedOutside();
    assert Vk.InWindow(Get(rows[1], Vk.OprettetColumn), Y2K, None);
  }

  /** The 1970 object alone selects nothing. */
  lemma ExampleSyncedOutside()
    ensures Vk.SelectRows(Vk.PointLayer, [SyncedRow], Y2K, None) == []
  {
    assert !Vk.InWindow(Get(SyncedRow, Vk.OprettetColumn), Y2K, None);
    assert [SyncedRow][..0] == [];
  }

  /** The two empty layers contribute nothing. */
  lemma ExampleEmptyLayers()
    ensures Vk.Scan(ExampleVk, [Vk.PolygonLayer, Vk.LineLayer], Y2K, None) == Success(Vk.Frame({}, []))
  {
    assert [Vk.PolygonLayer, Vk.LineLayer][1..] == [Vk.LineLayer];
    assert Vk.Scan(ExampleVk, [Vk.LineLayer], Y2K, None) == Success(Vk.Frame({}, []));
  }

  lemma ExampleScan()
    ensures Vk.Scan(ExampleVk, Vk.AllLayers, Y2K, None)
      == Success(Vk.Frame(ExampleColumns, [Vk.Row(1, Vk.Origin(Vk.PointLayer, 1), FreshRow)]))
  {
    ExamplePointSelection();
    ExampleEmptyLayers();
    assert Vk.AllLayers[1..] == [Vk.PolygonLayer, Vk.LineLayer];
    assert ExampleColumns + {} == ExampleColumns;
    assert [Vk.Row(1, Vk.Origin(Vk.PointLayer, 1), FreshRow)] + [] == [Vk.Row(1, Vk.Origin(Vk.PointLayer, 1), FreshRow)];
  }

  /** The fetch from 2000-01-01 finds only the fresh object, which sits at
      row 1 of the point layer but gets index label 0 in the frame. */
  lemma ExampleFetch()
    ensures Vk.GetObjectsByDate(ExampleVk, Y2K, None, None)
      == Success(Vk.Frame(ExampleColumns, [Vk.Row(0, Vk.Origin(Vk.PointLayer, 1), FreshRow)]))
  {
    ExampleScan();
    var row := Vk.Row(1, Vk.Origin(Vk.PointLayer, 1), FreshRow);
    assert Vk.Renumber([row]) == [row.(index := 0)];
  }

  /** A run whose fetch finds one object that needs syncing and can be
      created, in a frame without `navn`, reports that one entry and writes
      it back. */
  lemma OneObjectRun(vk: Container, geofa: Container, since: int, newId: nat -> string, columns: set<string>, row: Vk.Row)
    requires Vk.GetObjectsByDate(vk, since, None, None) == Success(Vk.Frame(columns, [row]))
    requires Vk.ObjektIdColumn in columns && NavnColumn !in columns
    requires NeedsSync(row.rec) && Creatable(geofa.Keys, row.rec)
    ensures var d := DetailFor(row, ParseTemakode(Get(row.rec, TemakodeColumn)).value, newId(0), false, FrameIndex);
      && SyncSince(vk, geofa, since, newId).Success?
      && SyncSince(vk, geofa, since, newId).value.result.syncDetails == [d]
      && SyncSince(vk, geofa, since, newId).value.result.newlySynced == 1
      && SyncSince(vk, geofa, since, newId).value.vk == PatchAll(vk, [d]).store
  {
    assert FilterRows([row]) == [row];
    ExpectedDetailsTake([row], false, geofa.Keys, newId, 0, FrameIndex);
  }

  /** The same run keyed by origin. */
  lemma OneObjectRunIntended(vk: Container, geofa: Container, since: int, newId: nat -> string, columns: set<string>, row: Vk.Row)
    requires Vk.GetObjectsByDate(vk, since, None, None) == Success(Vk.Frame(columns, [row]))
    requires Vk.ObjektIdColumn in columns && NavnColumn !in columns
    requires NeedsSync(row.rec) && Creatable(geofa.Keys, row.rec)
    ensures var d := DetailFor(row, ParseTemakode(Get(row.rec, TemakodeColumn)).value, newId(0), false, SourceOrigin);
      && SyncSinceIntended(vk, geofa, since, newId).Success?
      && SyncSinceIntended(vk, geofa, since, newId).value.result.syncDetails == [d]
      && SyncSinceIntended(vk, geofa, since, newId).value.vk == PatchAll(vk, [d]).store
  {
    assert FilterRows([row]) == [row];
    ExpectedDetailsTake([row], false, geofa.Keys, newId, 0, SourceOrigin);
  }

  /** Writing one entry back is one `update_objekt_id` call. */
  lemma PatchOne(vk: Container, d: Detail)
    ensures PatchAll(vk, [d]).store == Vk.UpdateObjektId(vk, d.layerName, d.fid, d.newObjektId).store
  {
    assert [d][1..] == [];
  }

  /** Setting `objekt_id` of point-layer row `fid` of the example store. */
  lemma ExamplePatch(fid: nat, id: string)
    requires fid < 2
    ensures var store := Vk.UpdateObjektId(ExampleVk, Vk.PointLayer, fid, id).store;
      && Vk.PointLayer in store && |store[Vk.PointLayer].rows| == 2
      && Get(store[Vk.PointLayer].rows[fid], Vk.ObjektIdColumn) == Str(id)
      && Get(store[Vk.PointLayer].rows[1 - fid], Vk.ObjektIdColumn) == (if fid == 0 then Null else Str("a"))
  {
    assert ExampleVk[Vk.PointLayer] == Layer(ExampleColumns, [SyncedRow, FreshRow]);
    assert Get(SyncedRow, Vk.ObjektIdColumn) == Str("a") && Get(FreshRow, Vk.ObjektIdColumn) == Null;
  }

  /** The entry the code records for the fresh object, keyed by its position
      0 in the fetched frame. */
  lemma AsWrittenExampleDetail(id: string)
    ensures DetailFor(Vk.Row(0, Vk.Origin(Vk.PointLayer, 1), FreshRow), ParseTemakode(Get(FreshRow, TemakodeColumn)).value, id, false, FrameIndex)
      == Detail(0, Vk.PointLayer, id, Str("Unknown"), 5800)
  {
    FacilityLayerNames();
  }

  /** As written, the new id lands on row 0, overwriting the id of the
      object synced earlier, and the fresh object stays without one, though
      the run reports it as synced. */
  lemma AsWrittenWritesBackToWrongRow(newId: nat -> string)
    ensures var r := SyncNewObjects(ExampleVk, ExampleGeofa, None, newId);
      && r.Success?
      && r.value.result.newlySynced == 1 && r.value.result.errors == 0
      && Vk.PointLayer in r.value.vk && |r.value.vk[Vk.PointLayer].rows| == 2
      && Get(r.value.vk[Vk.PointLayer].rows[0], Vk.ObjektIdColumn) == Str(newId(0))
      && Get(r.value.vk[Vk.PointLayer].rows[1], Vk.ObjektIdColumn) == Null
  {
    var row := Vk.Row(0, Vk.Origin(Vk.PointLayer, 1), FreshRow);
    var d := Detail(0, Vk.PointLayer, newId(0), Str("Unknown"), 5800);
    ExampleFetch();
    assert Creatable(ExampleGeofa.Keys, FreshRow);
    OneObjectRun(ExampleVk, ExampleGeofa, Y2K, newId, ExampleColumns, row);
    AsWrittenExampleDetail(newId(0));
    var r := SyncSince(ExampleVk, ExampleGeofa, Y2K, newId);
    assert r.value.result.syncDetails == [d];
    PatchOne(ExampleVk, d);
    assert r.value.vk == Vk.UpdateObjektId(ExampleVk, Vk.PointLayer, 0, newId(0)).store;
    ExamplePatch(0, newId(0));
  }

  /** The example run as intended, from 2000-01-01: one entry, keyed by the
      object's origin, row 1 of the point layer. */
  lemma IntendedExampleRun(newId: nat -> string)
    ensures var r := SyncSinceIntended(ExampleVk, ExampleGeofa, Y2K, newId);
      var d := Detail(1, Vk.PointLayer, newId(0), Str("Unknown"), 5800);
      && r.Success?
      && r.value.result.syncDetails == [d]
      && r.value.vk == PatchAll(ExampleVk, [d]).store
  {
    var row := Vk.Row(0, Vk.Origin(Vk.PointLayer, 1), FreshRow);
    ExampleFetch();
    assert Creatable(ExampleGeofa.Keys, FreshRow);
    OneObjectRunIntended(ExampleVk, ExampleGeofa, Y2K, newId, ExampleColumns, row);
    IntendedExampleDetail(newId(0));
  }

  /** The entry recorded as intended, keyed by the object's row 1 in VK. */
  lemma IntendedExampleDetail(id: string)
    ensures DetailFor(Vk.Row(0, Vk.Origin(Vk.PointLayer, 1), FreshRow), ParseTemakode(Get(FreshRow, TemakodeColumn)).value, id, false, SourceOrigin)
      == Detail(1, Vk.PointLayer, id, Str("Unknown"), 5800)
  {
    FacilityLayerNames();
  }

  /** As intended, the same run leaves the earlier id alone and gives the
      fresh object its id. */
  lemma IntendedWritesBackToFetchedRow(newId: nat -> string)
    ensures var r := SyncNewObjectsIntended(ExampleVk, ExampleGeofa, None, newId);
      && r.Success?
      && r.value.result.newlySynced == 1 && r.value.result.errors == 0
      && Vk.PointLayer in r.value.vk && |r.value.vk[Vk.PointLayer].rows| == 2
      && Get(r.value.vk[Vk.PointLayer].rows[0], Vk.ObjektIdColumn) == Str("a")
      && Get(r.value.vk[Vk.PointLayer].rows[1], Vk.ObjektIdColumn) == Str(newId(0))
  {
    IntendedExampleRun(newId);
    IntendedCountsAllWrites(ExampleVk, ExampleGeofa, Y2K, newId);
    PatchOne(ExampleVk, Detail(1, Vk.PointLayer, newId(0), Str("Unknown"), 5800));
    ExamplePatch(1, newId(0));
  }
}
