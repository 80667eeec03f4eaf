/** The VK -> GeoFA synchronisation of new objects (`DatabaseSync`): fetch
    the VK objects created since a threshold, keep those without a GeoFA id,
    create each in GeoFA, write the new ids back into VK and count. */
module DbSync {
  import opened Wrappers
  import opened Tables
  import Text
  import Vk
  import Geofa

  /** `datetime(2000, 1, 1)`, read as UTC, in seconds since the Unix epoch. */
  const Y2K := 946684800

  const TemakodeColumn := "temakode"
  const GeometryColumn := "geometry"
  const NavnColumn := "navn"

  // ---------------------------------------------------------------------
  // Layer name from temakode
  // ---------------------------------------------------------------------

  /** `_get_layer_name_from_temakode`: `GeoFA_<code>_fac_<suffix>` with
      suffix pkt for 5800, fl for 5801 and li for every other code. */
  function LayerNameFromTemakode(temakode: int): string {
    "GeoFA_" + Text.IntToString(temakode) + "_fac_"
      + (if temakode == 5800 then "pkt" else if temakode == 5801 then "fl" else "li")
  }

  /** Two strings that agree after an underscore-free head agree on the head. */
  lemma HeadBeforeUnderscore(d1: string, r1: string, d2: string, r2: string)
    requires '_' !in d1 && '_' !in d2
    requires |r1| > 0 && r1[0] == '_' && |r2| > 0 && r2[0] == '_'
    requires d1 + r1 == d2 + r2
    ensures d1 == d2
  {
    assert d1 == (d1 + r1)[..|d1|];
    assert d2 == (d2 + r2)[..|d2|];
  }

  /** A layer name built from `temakode` that reads `GeoFA_<code>_fac_...`
      was built from `code`. */
  lemma CodeOfLayerName(temakode: int, code: int, suffix: string)
    requires LayerNameFromTemakode(temakode) == "GeoFA_" + Text.IntToString(code) + "_fac_" + suffix
    ensures temakode == code
  {
    var d1 := Text.IntToString(temakode);
    var d2 := Text.IntToString(code);
    var s1 := if temakode == 5800 then "pkt" else if temakode == 5801 then "fl" else "li";
    var r1 := "_fac_" + s1;
    var r2 := "_fac_" + suffix;
    assert LayerNameFromTemakode(temakode) == "GeoFA_" + (d1 + r1);
    assert "GeoFA_" + Text.IntToString(code) + "_fac_" + suffix == "GeoFA_" + (d2 + r2);
    assert d1 + r1 == (LayerNameFromTemakode(temakode))[6..];
    assert d2 + r2 == ("GeoFA_" + (d2 + r2))[6..];
    assert '_' !in d1 by {
      forall k | 0 <= k < |d1| ensures d1[k] != '_' { }
    }
    assert '_' !in d2 by {
      forall k | 0 <= k < |d2| ensures d2[k] != '_' { }
    }
    HeadBeforeUnderscore(d1, r1, d2, r2);
    Text.IntToStringInjective(temakode, code);
  }

  /** The printed facility codes. */
  lemma FacilityCodeDigits()
    ensures Text.IntToString(5800) == "5800"
    ensures Text.IntToString(5801) == "5801"
    ensures Text.IntToString(5802) == "5802"
  {
  }

  /** The three facility codes name the three VK layers. */
  lemma FacilityLayerNames()
    ensures LayerNameFromTemakode(5800) == Vk.PointLayer
    ensures LayerNameFromTemakode(5801) == Vk.PolygonLayer
    ensures LayerNameFromTemakode(5802) == Vk.LineLayer
  {
    FacilityCodeDigits();
  }

  /** Only 5800, 5801 and 5802 name a layer the VK store has; every other
      code yields a `..._fac_li` name that no VK layer carries. */
  lemma LayerNameIsVkLayerIff(temakode: int)
    ensures LayerNameFromTemakode(temakode) in Vk.AllLayers <==> temakode in {5800, 5801, 5802}
    ensures temakode != 5800 && temakode != 5801 ==>
      LayerNameFromTemakode(temakode) == "GeoFA_" + Text.IntToString(temakode) + "_fac_li"
  {
    FacilityCodeDigits();
    FacilityLayerNames();
    var name := LayerNameFromTemakode(temakode);
    if name == Vk.PointLayer {
      CodeOfLayerName(temakode, 5800, "pkt");
    } else if name == Vk.PolygonLayer {
      CodeOfLayerName(temakode, 5801, "fl");
    } else if name == Vk.LineLayer {
      CodeOfLayerName(temakode, 5802, "li");
    }
  }

  /** Each VK facility layer is the GeoFA layer of the same name behind `GeoFA_`. */
  lemma PrefixedLayerNames()
    ensures Vk.PointLayer == "GeoFA_" + Geofa.PointLayer
    ensures Vk.PolygonLayer == "GeoFA_" + Geofa.PolygonLayer
    ensures Vk.LineLayer == "GeoFA_" + Geofa.LineLayer
  {
  }

  /** For a row whose code agrees with its geometry, the VK layer named from
      the code and the GeoFA layer chosen from the geometry are the same
      facility layer, the VK one carrying the `GeoFA_` prefix. */
  lemma LayerNamesAgree(temakode: int, g: Geometry)
    requires temakode == 5800 ==> g.kind in {Point, MultiPoint}
    requires temakode == 5801 ==> g.kind in {Polygon, MultiPolygon}
    requires temakode == 5802 ==> g.kind in {LineString, MultiLineString}
    requires temakode in {5800, 5801, 5802}
    ensures Geofa.InferLayer(Geom(g)).Success?
    ensures LayerNameFromTemakode(temakode) == "GeoFA_" + Geofa.InferLayer(Geom(g)).value
  {
    FacilityLayerNames();
    PrefixedLayerNames();
  }

  // ---------------------------------------------------------------------
  // Objects without a GeoFA id
  // ---------------------------------------------------------------------

  /** `objekt_id` is null, or text that is empty once stripped. */
  predicate NeedsSync(rec: Record) {
    var v := Get(rec, Vk.ObjektIdColumn);
    v.Null? || (v.Str? && Text.Strip(v.s) == "")
  }

  /** An object needs syncing exactly when its `objekt_id` is null or made
      only of whitespace; any other text or value marks it as synced. */
  lemma NeedsSyncIff(rec: Record)
    ensures NeedsSync(rec) <==>
      (Get(rec, Vk.ObjektIdColumn).Null?
        || (Get(rec, Vk.ObjektIdColumn).Str? && Text.AllSpace(Get(rec, Vk.ObjektIdColumn).s)))
  {
    if Get(rec, Vk.ObjektIdColumn).Str? {
      Text.StripEmptyIff(Get(rec, Vk.ObjektIdColumn).s);
    }
  }

  /** The boolean-mask selection: rows keep their index label and order. */
  function FilterRows(rows: seq<Vk.Row>): (r: seq<Vk.Row>)
    ensures |r| <= |rows|
    ensures forall i :: 0 <= i < |r| ==> r[i] in rows && NeedsSync(r[i].rec)
    ensures forall i :: 0 <= i < |rows| && NeedsSync(rows[i].rec) ==> rows[i] in r
  {
    if |rows| == 0 then []
    else (if NeedsSync(rows[0].rec) then [rows[0]] else []) + FilterRows(rows[1..])
  }

  /** Filtering distributes over concatenation, so it keeps the relative
      order of the rows it keeps. */
  lemma {:induction false} FilterRowsConcat(a: seq<Vk.Row>, b: seq<Vk.Row>)
    ensures FilterRows(a + b) == FilterRows(a) + FilterRows(b)
  {
    if |a| > 0 {
      assert (a + b)[1..] == a[1..] + b;
      FilterRowsConcat(a[1..], b);
    } else {
      assert a + b == b;
    }
  }

  /** Filtering keeps rows of one VK layer in their source order. */
  lemma {:induction false} FilterRowsSourceOrdered(rows: seq<Vk.Row>)
    requires Vk.SourceOrdered(rows)
    ensures Vk.SourceOrdered(FilterRows(rows))
  {
    if |rows| > 0 {
      Vk.SourceOrderedTail(rows);
      FilterRowsSourceOrdered(rows[1..]);
      var tail := FilterRows(rows[1..]);
      forall j | 0 <= j < |tail| && tail[j].origin.layer == rows[0].origin.layer
        ensures rows[0].origin.fid < tail[j].origin.fid
      {
        var k :| 0 <= k < |rows[1..]| && rows[1..][k] == tail[j];
        assert rows[k + 1] == tail[j];
      }
      if NeedsSync(rows[0].rec) {
        Vk.SourceOrderedCons(rows[0], tail);
      }
    }
  }

  /** `_filter_objects_without_id`: keeps exactly the rows that need syncing,
      with their index labels and in their order; the columns stay. */
  function FilterObjectsWithoutId(frame: Vk.Frame): (r: Vk.Frame)
    ensures r.columns == frame.columns
    ensures |r.rows| <= |frame.rows|
    ensures forall i :: 0 <= i < |r.rows| ==> r.rows[i] in frame.rows && NeedsSync(r.rows[i].rec)
    ensures forall i :: 0 <= i < |frame.rows| && NeedsSync(frame.rows[i].rec) ==> frame.rows[i] in r.rows
  {
    Vk.Frame(frame.columns, FilterRows(frame.rows))
  }

  // ---------------------------------------------------------------------
  // Creating the objects in GeoFA
  // ---------------------------------------------------------------------

  /** One entry of `sync_details`. */
  datatype Detail = Detail(fid: int, layerName: string, newObjektId: string, navn: Value, temakode: int)

  /** Which position the write-back is aimed at: the frame's index label and
      the layer named from the code (as the source does), or the VK layer and
      row the object was read from (the evident intent, see `SyncFixes`). */
  datatype Keying = FrameIndex | SourceOrigin

  /** `row.get("navn", "Unknown")`: the default only when the frame has no such column. */
  function Navn(row: Vk.Row, hasNavn: bool): Value {
    if hasNavn then Get(row.rec, NavnColumn) else Str("Unknown")
  }

  function DetailFor(row: Vk.Row, temakode: int, id: string, hasNavn: bool, keying: Keying): Detail {
    match keying
    case FrameIndex => Detail(row.index, LayerNameFromTemakode(temakode), id, Navn(row, hasNavn), temakode)
    case SourceOrigin => Detail(row.origin.fid, row.origin.layer, id, Navn(row, hasNavn), temakode)
  }

  /** Optionally signed ASCII decimal digits. */
  function ParseSignedDigits(s: string): Option<int> {
    if |s| > 0 && Text.IsDigits(s) then Some(Text.ParseDigits(s))
    else if |s| > 1 && s[0] == '-' && Text.IsDigits(s[1..]) then Some(-(Text.ParseDigits(s[1..]) as int))
    else if |s| > 1 && s[0] == '+' && Text.IsDigits(s[1..]) then Some(Text.ParseDigits(s[1..]))
    else None
  }

  /** `int(row["temakode"])`: an integer cell as it is, a text cell holding an
      optionally signed decimal number between whitespace parsed; a null cell
      or any other cell raises. */
  function ParseTemakode(v: Value): (r: Option<int>)
    ensures v.Int? ==> r == Some(v.i)
    ensures r.Some? ==> v.Int? || v.Str?
    ensures v.Str? && r.Some? ==> exists k :: 0 <= k < |v.s| && '0' <= v.s[k] <= '9'
  {
    match v
    case Int(i) => Some(i)
    case Str(s) => ParseSignedDigits(Text.Strip(s))
    case _ => None
  }

  lemma ParseSignedDigitsPrinted(k: int)
    ensures ParseSignedDigits(Text.IntToString(k)) == Some(k)
  {
    var s := Text.IntToString(k);
    if k < 0 {
      assert s[1..] == Text.NatToString(-k);
      assert !Text.IsDigits(s);
      Text.ParseNatToString(-k);
    } else {
      Text.ParseNatToString(k);
    }
  }

  /** What `str(k)` prints, `int` reads back. */
  lemma ParseTemakodePrinted(k: int)
    ensures ParseTemakode(Str(Text.IntToString(k))) == Some(k)
  {
    Text.StripUnspaced(Text.IntToString(k));
    ParseSignedDigitsPrinted(k);
  }

  /** The body of the `try`: `int(row["temakode"])` must succeed, then
      `create_object` must not raise. */
  predicate Creatable(geofaLayers: set<string>, rec: Record) {
    && ParseTemakode(Get(rec, TemakodeColumn)).Some?
    && Geofa.InferLayer(Get(rec, GeometryColumn)).Success?
    && Geofa.InferLayer(Get(rec, GeometryColumn)).value in geofaLayers
  }

  datatype Step = Step(detail: Detail, store: Container)

  /** One iteration of the loop in `_create_objects_in_geofa`. */
  function Attempt(row: Vk.Row, hasNavn: bool, geofa: Container, id: string, keying: Keying): (r: Result<Step>)
    ensures r.Success? <==> Creatable(geofa.Keys, row.rec)
    ensures r.Success? ==> r.value.detail == DetailFor(row, ParseTemakode(Get(row.rec, TemakodeColumn)).value, id, hasNavn, keying)
    ensures r.Success? ==> r.value.store.Keys == geofa.Keys
    ensures r.Success? ==> forall name :: name in geofa ==>
      |r.value.store[name].rows| >= |geofa[name].rows|
      && r.value.store[name].rows[..|geofa[name].rows|] == geofa[name].rows
  {
    var code := ParseTemakode(Get(row.rec, TemakodeColumn));
    if code.None? then Failure(BadTemakode)
    else
      var created :- Geofa.CreateObject(geofa, code.value, Get(row.rec, GeometryColumn), id);
      Success(Step(DetailFor(row, code.value, created.id, hasNavn, keying), created.store))
  }

  datatype Batch = Batch(details: seq<Detail>, store: Container)

  /** The loop of `_create_objects_in_geofa` from row `next` of the batch on:
      a row whose creation raises is skipped and the loop goes on. Row `next`
      draws the id `newId(next)`. */
  function CreateBatch(rows: seq<Vk.Row>, hasNavn: bool, geofa: Container, newId: nat -> string, next: nat, keying: Keying): (r: Batch)
    ensures |r.details| <= |rows|
    ensures r.store.Keys == geofa.Keys
    ensures forall name :: name in geofa ==>
      |r.store[name].rows| >= |geofa[name].rows|
      && r.store[name].rows[..|geofa[name].rows|] == geofa[name].rows
    decreases |rows|
  {
    if |rows| == 0 then Batch([], geofa)
    else
      match Attempt(rows[0], hasNavn, geofa, newId(next), keying)
      case Failure(_) => CreateBatch(rows[1..], hasNavn, geofa, newId, next + 1, keying)
      case Success(step) =>
        var rest := CreateBatch(rows[1..], hasNavn, step.store, newId, next + 1, keying);
        Batch([step.detail] + rest.details, rest.store)
  }

  /** A row that can be created lands in GeoFA layer `name`. */
  predicate RoutesTo(geofaLayers: set<string>, rec: Record, name: string) {
    Creatable(geofaLayers, rec) && Geofa.InferLayer(Get(rec, GeometryColumn)).value == name
  }

  /** Reference count: how many rows of the batch land in layer `name`. */
  function RoutedCount(rows: seq<Vk.Row>, geofaLayers: set<string>, name: string): nat
    decreases |rows|
  {
    if |rows| == 0 then 0
    else (if RoutesTo(geofaLayers, rows[0].rec, name) then 1 else 0) + RoutedCount(rows[1..], geofaLayers, name)
  }

  /** The loop adds to each GeoFA layer exactly one row per batch row that
      can be created and routes to it, and adds no layer. */
  lemma {:induction false} CreateBatchGrowth(rows: seq<Vk.Row>, hasNavn: bool, geofa: Container, newId: nat -> string, next: nat, keying: Keying)
    ensures forall name :: name in geofa ==>
      |CreateBatch(rows, hasNavn, geofa, newId, next, keying).store[name].rows|
        == |geofa[name].rows| + RoutedCount(rows, geofa.Keys, name)
    decreases |rows|
  {
    if |rows| > 0 {
      match Attempt(rows[0], hasNavn, geofa, newId(next), keying)
      case Failure(_) =>
        CreateBatchGrowth(rows[1..], hasNavn, geofa, newId, next + 1, keying);
      case Success(step) =>
        var target := Geofa.InferLayer(Get(rows[0].rec, GeometryColumn)).value;
        CreateBatchGrowth(rows[1..], hasNavn, step.store, newId, next + 1, keying);
        forall name | name in geofa
          ensures |step.store[name].rows| == |geofa[name].rows| + (if RoutesTo(geofa.Keys, rows[0].rec, name) then 1 else 0)
        {
        }
    }
  }

  /** A successful attempt appends one row, holding the drawn id, to the
      layer the row routes to, and its entry carries that id. */
  lemma AttemptAppends(row: Vk.Row, hasNavn: bool, geofa: Container, id: string, keying: Keying)
    requires Attempt(row, hasNavn, geofa, id, keying).Success?
    ensures var step := Attempt(row, hasNavn, geofa, id, keying).value;
      var target := Geofa.InferLayer(Get(row.rec, GeometryColumn)).value;
      && target in geofa && target in step.store
      && |step.store[target].rows| == |geofa[target].rows| + 1
      && Get(step.store[target].rows[|geofa[target].rows|], Geofa.ObjektIdColumn) == Str(id)
      && step.detail.newObjektId == id
  {
  }

  /** Where entry `t` of batch `b` keeps its id: batch row `j` can be
      created over the layers of `geofa`, and row `k` of the layer it routes
      to lies past that layer's rows in `geofa` and holds the entry's id. */
  predicate StoredIn(rows: seq<Vk.Row>, geofa: Container, b: Batch, t: nat, j: nat, k: nat)
    requires t < |b.details|
  {
    && j < |rows| && Creatable(geofa.Keys, rows[j].rec)
    && var target := Geofa.InferLayer(Get(rows[j].rec, GeometryColumn)).value;
    && target in geofa && target in b.store
    && |geofa[target].rows| <= k < |b.store[target].rows|
    && Get(b.store[target].rows[k], Geofa.ObjektIdColumn) == Str(b.details[t].newObjektId)
  }

  /** Where entry `t` of the loop's batch keeps its id: row `k` of the layer
      batch row `j` routes to was appended by the loop and holds that id. */
  predicate StoredAt(rows: seq<Vk.Row>, hasNavn: bool, geofa: Container, newId: nat -> string,
                     next: nat, keying: Keying, t: nat, j: nat, k: nat)
    requires t < |CreateBatch(rows, hasNavn, geofa, newId, next, keying).details|
  {
    StoredIn(rows, geofa, CreateBatch(rows, hasNavn, geofa, newId, next, keying), t, j, k)
  }

  /** Entry `t` of the loop comes from a batch row that can be created, and
      the id it carries sits in a row the loop appended to the GeoFA layer
      that batch row routes to. */
  lemma {:induction false} CreateBatchStoresId(rows: seq<Vk.Row>, hasNavn: bool, geofa: Container, newId: nat -> string,
                                               next: nat, keying: Keying, t: nat) returns (j: nat, k: nat)
    requires t < |CreateBatch(rows, hasNavn, geofa, newId, next, keying).details|
    ensures StoredAt(rows, hasNavn, geofa, newId, next, keying, t, j, k)
    decreases |rows|, 1
  {
    var a := Attempt(rows[0], hasNavn, geofa, newId(next), keying);
    if a.Failure? {
      j, k := StoresIdAfterSkip(rows, hasNavn, geofa, newId, next, keying, t);
    } else if t == 0 {
      j, k := 0, |geofa[Geofa.InferLayer(Get(rows[0].rec, GeometryColumn)).value].rows|;
      StoredAtHead(rows, hasNavn, geofa, newId, next, keying, a.value);
    } else {
      CreateBatchTake(rows, hasNavn, geofa, newId, next, keying, a.value);
      j, k := StoresIdAfterTake(rows, hasNavn, geofa, newId, next, keying, t, a.value);
    }
  }

  /** The loop after a first row that cannot be created is the loop from the next row. */
  lemma CreateBatchSkip(rows: seq<Vk.Row>, hasNavn: bool, geofa: Container, newId: nat -> string, next: nat, keying: Keying)
    requires |rows| > 0 && Attempt(rows[0], hasNavn, geofa, newId(next), keying).Failure?
    ensures CreateBatch(rows, hasNavn, geofa, newId, next, keying) == CreateBatch(rows[1..], hasNavn, geofa, newId, next + 1, keying)
  {
  }

  /** The loop after a first row that was created puts its entry in front of
      the loop from the next row over the grown store. */
  lemma CreateBatchTake(rows: seq<Vk.Row>, hasNavn: bool, geofa: Container, newId: nat -> string, next: nat, keying: Keying, step: Step)
    requires |rows| > 0 && Attempt(rows[0], hasNavn, geofa, newId(next), keying) == Success(step)
    ensures var rest := CreateBatch(rows[1..], hasNavn, step.store, newId, next + 1, keying);
      CreateBatch(rows, hasNavn, geofa, newId, next, keying) == Batch([step.detail] + rest.details, rest.store)
  {
  }

  /** `CreateBatchStoresId` when the first row cannot be created. */
  lemma {:induction false} StoresIdAfterSkip(rows: seq<Vk.Row>, hasNavn: bool, geofa: Container, newId: nat -> string,
                                           next: nat, keying: Keying, t: nat) returns (j: nat, k: nat)
    requires |rows| > 0 && Attempt(rows[0], hasNavn, geofa, newId(next), keying).Failure?
    requires t < |CreateBatch(rows, hasNavn, geofa, newId, next, keying).details|
    ensures StoredAt(rows, hasNavn, geofa, newId, next, keying, t, j, k)
    decreases |rows|, 0
  {
    CreateBatchSkip(rows, hasNavn, geofa, newId, next, keying);
    var j', k' := CreateBatchStoresId(rows[1..], hasNavn, geofa, newId, next + 1, keying, t);
    StoredInSkip(rows, geofa, CreateBatch(rows[1..], hasNavn, geofa, newId, next + 1, keying), t, j', k');
    j, k := j' + 1, k';
  }

  /** `CreateBatchStoresId` for a later entry when the first row was created:
      the entry's id is stored by the loop's first entry put in front of the
      rest of the loop over the store the first row grew. */
  lemma {:induction false} StoresIdAfterTake(rows: seq<Vk.Row>, hasNavn: bool, geofa: Container, newId: nat -> string,
                                           next: nat, keying: Keying, t: nat, step: Step) returns (j: nat, k: nat)
    requires |rows| > 0
    requires step.store.Keys == geofa.Keys
    requires forall name :: name in geofa ==> |step.store[name].rows| >= |geofa[name].rows|
    requires 0 < t && t - 1 < |CreateBatch(rows[1..], hasNavn, step.store, newId, next + 1, keying).details|
    ensures var rest := CreateBatch(rows[1..], hasNavn, step.store, newId, next + 1, keying);
      StoredIn(rows, geofa, Batch([step.detail] + rest.details, rest.store), t, j, k)
    decreases |rows|, 0
  {
    var rest := CreateBatch(rows[1..], hasNavn, step.store, newId, next + 1, keying);
    var j', k' := CreateBatchStoresId(rows[1..], hasNavn, step.store, newId, next + 1, keying, t - 1);
    StoredInLater(rows, geofa, step.store, step.detail, rest, t, j', k');
    j, k := j' + 1, k';
  }

  /** A first row that is skipped shifts the batch row an entry comes from. */
  lemma StoredInSkip(rows: seq<Vk.Row>, geofa: Container, b: Batch, t: nat, j': nat, k': nat)
    requires |rows| > 0 && t < |b.details|
    requires StoredIn(rows[1..], geofa, b, t, j', k')
    ensures StoredIn(rows, geofa, b, t, j' + 1, k')
  {
    assert rows[1..][j'] == rows[j' + 1];
  }

  /** The entry of a first row that can be created keeps its id in the row
      its creation appended. */
  lemma StoredAtHead(rows: seq<Vk.Row>, hasNavn: bool, geofa: Container, newId: nat -> string,
                     next: nat, keying: Keying, step: Step)
    requires |rows| > 0 && Attempt(rows[0], hasNavn, geofa, newId(next), keying) == Success(step)
    ensures 0 < |CreateBatch(rows, hasNavn, geofa, newId, next, keying).details|
    ensures StoredAt(rows, hasNavn, geofa, newId, next, keying, 0, 0,
                     |geofa[Geofa.InferLayer(Get(rows[0].rec, GeometryColumn)).value].rows|)
  {
    var rest := CreateBatch(rows[1..], hasNavn, step.store, newId, next + 1, keying);
    assert CreateBatch(rows, hasNavn, geofa, newId, next, keying) == Batch([step.detail] + rest.details, rest.store);
    AttemptAppends(rows[0], hasNavn, geofa, newId(next), keying);
    var target := Geofa.InferLayer(Get(rows[0].rec, GeometryColumn)).value;
    var k := |geofa[target].rows|;
    assert rest.store[target].rows[..|step.store[target].rows|] == step.store[target].rows;
    assert rest.store[target].rows[k] == step.store[target].rows[k];
  }

  /** An id stored by the rest of the loop, over a store that only grew from
      `geofa`, is stored by the whole loop, one batch row further on, once
      the first row's entry is put in front. */
  lemma StoredInLater(rows: seq<Vk.Row>, geofa: Container, grown: Container, detail: Detail, rest: Batch,
                      t: nat, j': nat, k': nat)
    requires |rows| > 0 && 0 < t && t - 1 < |rest.details|
    requires grown.Keys == geofa.Keys
    requires forall name :: name in geofa ==> |grown[name].rows| >= |geofa[name].rows|
    requires StoredIn(rows[1..], grown, rest, t - 1, j', k')
    ensures StoredIn(rows, geofa, Batch([detail] + rest.details, rest.store), t, j' + 1, k')
  {
    assert rows[1..][j'] == rows[j' + 1];
    assert ([detail] + rest.details)[t] == rest.details[t - 1];
  }

  /** Which rows of the batch can be created. */
  function CreatableMask(rows: seq<Vk.Row>, geofaLayers: set<string>): (m: seq<bool>)
    ensures |m| == |rows|
    ensures forall j :: 0 <= j < |rows| ==> m[j] == Creatable(geofaLayers, rows[j].rec)
  {
    seq(|rows|, j requires 0 <= j < |rows| => Creatable(geofaLayers, rows[j].rec))
  }

  /** Reference selection: the uuid draws of the rows the mask marks, in row
      order, where row `j` draws `next + j`. */
  function Marked(mask: seq<bool>, next: nat): (r: seq<nat>)
    ensures |r| <= |mask|
    ensures forall t :: 0 <= t < |r| ==> next <= r[t] < next + |mask| && mask[r[t] - next]
    ensures forall s, t :: 0 <= s < t < |r| ==> r[s] < r[t]
    decreases |mask|
  {
    if |mask| == 0 then []
    else (if mask[0] then [next] else []) + Marked(mask[1..], next + 1)
  }

  /** Every marked row is selected. */
  lemma {:induction false} MarkedComplete(mask: seq<bool>, next: nat, j: nat)
    requires j < |mask| && mask[j]
    ensures next + j in Marked(mask, next)
    decreases |mask|
  {
    if j > 0 {
      MarkedComplete(mask[1..], next + 1, j - 1);
    }
  }

  /** The draws fit the rows from `next` on. */
  predicate Drawable(rows: seq<Vk.Row>, next: nat, draws: seq<nat>) {
    forall t :: 0 <= t < |draws| ==> next <= draws[t] < next + |rows|
  }

  /** The detail of the row that makes draw `draw`. Only rows that can be
      created are described, so the code always parses and the fallback 0 is
      never taken. */
  function DetailOfDraw(rows: seq<Vk.Row>, next: nat, draw: nat, hasNavn: bool, newId: nat -> string, keying: Keying): Detail
    requires next <= draw < next + |rows|
  {
    var row := rows[draw - next];
    DetailFor(row, ParseTemakode(Get(row.rec, TemakodeColumn)).GetOr(0), newId(draw), hasNavn, keying)
  }

  /** The details of the rows making `draws`, one each, in order. */
  function Describe(rows: seq<Vk.Row>, next: nat, draws: seq<nat>, hasNavn: bool, newId: nat -> string, keying: Keying): (r: seq<Detail>)
    requires Drawable(rows, next, draws)
    ensures |r| == |draws|
  {
    if |draws| == 0 then []
    else [DetailOfDraw(rows, next, draws[0], hasNavn, newId, keying)] + Describe(rows, next, draws[1..], hasNavn, newId, keying)
  }

  lemma MarkedDrawable(mask: seq<bool>, rows: seq<Vk.Row>, next: nat)
    requires |mask| == |rows|
    ensures Drawable(rows, next, Marked(mask, next))
  {
  }

  /** Entry `t` describes the row making draw `t`. */
  lemma {:induction false} DescribeAt(rows: seq<Vk.Row>, next: nat, draws: seq<nat>, hasNavn: bool, newId: nat -> string, keying: Keying, t: nat)
    requires Drawable(rows, next, draws) && t < |draws|
    ensures Describe(rows, next, draws, hasNavn, newId, keying)[t] == DetailOfDraw(rows, next, draws[t], hasNavn, newId, keying)
  {
    if t > 0 {
      assert Drawable(rows, next, draws[1..]) by {
        forall u | 0 <= u < |draws| - 1 ensures draws[1..][u] == draws[u + 1] { }
      }
      DescribeAt(rows, next, draws[1..], hasNavn, newId, keying, t - 1);
    }
  }

  /** Dropping the first row and advancing `next` past it describes the later
      draws the same way. */
  lemma {:induction false} DescribeShift(rows: seq<Vk.Row>, next: nat, draws: seq<nat>, hasNavn: bool, newId: nat -> string, keying: Keying)
    requires |rows| > 0 && Drawable(rows, next, draws)
    requires forall t :: 0 <= t < |draws| ==> next + 1 <= draws[t]
    ensures Drawable(rows[1..], next + 1, draws)
    ensures Describe(rows, next, draws, hasNavn, newId, keying) == Describe(rows[1..], next + 1, draws, hasNavn, newId, keying)
  {
    forall t | 0 <= t < |draws| ensures rows[1..][draws[t] - (next + 1)] == rows[draws[t] - next] { }
    if |draws| > 0 {
      assert Drawable(rows, next, draws[1..]) by {
        forall u | 0 <= u < |draws| - 1 ensures draws[1..][u] == draws[u + 1] { }
      }
      DescribeShift(rows, next, draws[1..], hasNavn, newId, keying);
    }
  }

  /** Reference definition of the details `_create_objects_in_geofa` returns. */
  function ExpectedDetails(rows: seq<Vk.Row>, hasNavn: bool, geofaLayers: set<string>, newId: nat -> string, next: nat, keying: Keying): seq<Detail> {
    MarkedDrawable(CreatableMask(rows, geofaLayers), rows, next);
    Describe(rows, next, Marked(CreatableMask(rows, geofaLayers), next), hasNavn, newId, keying)
  }

  /** A row that cannot be created adds no detail. */
  lemma ExpectedDetailsSkip(rows: seq<Vk.Row>, hasNavn: bool, geofaLayers: set<string>, newId: nat -> string, next: nat, keying: Keying)
    requires |rows| > 0 && !Creatable(geofaLayers, rows[0].rec)
    ensures ExpectedDetails(rows, hasNavn, geofaLayers, newId, next, keying)
      == ExpectedDetails(rows[1..], hasNavn, geofaLayers, newId, next + 1, keying)
  {
    var mask := CreatableMask(rows, geofaLayers);
    assert mask[1..] == CreatableMask(rows[1..], geofaLayers);
    var tail := Marked(mask[1..], next + 1);
    assert Marked(mask, next) == tail;
    DescribeShift(rows, next, tail, hasNavn, newId, keying);
  }

  /** A row that can be created adds its detail in front of the later ones. */
  lemma ExpectedDetailsTake(rows: seq<Vk.Row>, hasNavn: bool, geofaLayers: set<string>, newId: nat -> string, next: nat, keying: Keying)
    requires |rows| > 0 && Creatable(geofaLayers, rows[0].rec)
    ensures ExpectedDetails(rows, hasNavn, geofaLayers, newId, next, keying)
      == [DetailFor(rows[0], ParseTemakode(Get(rows[0].rec, TemakodeColumn)).value, newId(next), hasNavn, keying)]
         + ExpectedDetails(rows[1..], hasNavn, geofaLayers, newId, next + 1, keying)
  {
    var mask := CreatableMask(rows, geofaLayers);
    assert mask[1..] == CreatableMask(rows[1..], geofaLayers);
    var tail := Marked(mask[1..], next + 1);
    var all := [next] + tail;
    assert Marked(mask, next) == all;
    assert all[0] == next && all[1..] == tail;
    DescribeShift(rows, next, tail, hasNavn, newId, keying);
    assert Describe(rows, next, all, hasNavn, newId, keying)
      == [DetailOfDraw(rows, next, next, hasNavn, newId, keying)] + Describe(rows, next, tail, hasNavn, newId, keying);
  }

  /** Creating an object never removes a layer, so whether a row can be
      created does not depend on the rows created before it: the loop yields
      exactly the reference details. */
  lemma {:induction false} CreateBatchDetails(rows: seq<Vk.Row>, hasNavn: bool, geofa: Container, newId: nat -> string, next: nat, keying: Keying)
    ensures CreateBatch(rows, hasNavn, geofa, newId, next, keying).details
      == ExpectedDetails(rows, hasNavn, geofa.Keys, newId, next, keying)
    decreases |rows|
  {
    if |rows| > 0 {
      match Attempt(rows[0], hasNavn, geofa, newId(next), keying)
      case Failure(_) =>
        ExpectedDetailsSkip(rows, hasNavn, geofa.Keys, newId, next, keying);
        CreateBatchDetails(rows[1..], hasNavn, geofa, newId, next + 1, keying);
      case Success(step) =>
        ExpectedDetailsTake(rows, hasNavn, geofa.Keys, newId, next, keying);
        CreateBatchDetails(rows[1..], hasNavn, step.store, newId, next + 1, keying);
    }
  }

  /** `_create_objects_in_geofa(objects_df)`: one entry per row that can be
      created, in row order, and one appended GeoFA row for each. */
  function CreateObjectsInGeofa(frame: Vk.Frame, geofa: Container, newId: nat -> string): (r: Batch)
    ensures r.details == ExpectedDetails(frame.rows, NavnColumn in frame.columns, geofa.Keys, newId, 0, FrameIndex)
    ensures r.store.Keys == geofa.Keys
    ensures forall name :: name in geofa ==>
      && |r.store[name].rows| == |geofa[name].rows| + RoutedCount(frame.rows, geofa.Keys, name)
      && r.store[name].rows[..|geofa[name].rows|] == geofa[name].rows
  {
    CreateBatchDetails(frame.rows, NavnColumn in frame.columns, geofa, newId, 0, FrameIndex);
    CreateBatchGrowth(frame.rows, NavnColumn in frame.columns, geofa, newId, 0, FrameIndex);
    CreateBatch(frame.rows, NavnColumn in frame.columns, geofa, newId, 0, FrameIndex)
  }

  // ---------------------------------------------------------------------
  // Writing the ids back into VK
  // ---------------------------------------------------------------------

  /** What one `update_objekt_id` call did, as the loop in
      `_update_vk_with_geofa_ids` sees it: a returned flag or an exception. */
  datatype PatchOutcome = Returned(flag: bool) | Raised

  datatype Counts = Counts(success: nat, errors: nat)

  /** The counting of `_update_vk_with_geofa_ids`: a call that returns
      counts as a success whatever it returns; only an exception is an error. */
  function CountPatchOutcomes(outcomes: seq<PatchOutcome>): (c: Counts)
    ensures c.success + c.errors == |outcomes|
    ensures c.errors == multiset(outcomes)[Raised]
    ensures c.errors == 0 <==> forall i :: 0 <= i < |outcomes| ==> outcomes[i].Returned?
  {
    if |outcomes| == 0 then Counts(0, 0)
    else
      assert outcomes == outcomes[..|outcomes| - 1] + [outcomes[|outcomes| - 1]];
      var c := CountPatchOutcomes(outcomes[..|outcomes| - 1]);
      if outcomes[|outcomes| - 1].Raised? then Counts(c.success, c.errors + 1)
      else Counts(c.success + 1, c.errors)
  }

  /** A `False` return is counted as a success. */
  lemma FalseCountedAsSuccess(outcomes: seq<PatchOutcome>)
    ensures CountPatchOutcomes(outcomes + [Returned(false)]).success == CountPatchOutcomes(outcomes).success + 1
    ensures CountPatchOutcomes(outcomes + [Returned(false)]).errors == CountPatchOutcomes(outcomes).errors
  {
    assert (outcomes + [Returned(false)])[..|outcomes|] == outcomes;
  }

  /** `update_objekt_id` can aim at `d`: the layer exists and `fid` is a row of it. */
  predicate Targets(vk: Container, d: Detail) {
    d.layerName in vk && 0 <= d.fid < |vk[d.layerName].rows|
  }

  /** A store with the same layers of the same lengths offers the same targets. */
  lemma TargetsKept(vk: Container, after: Container)
    requires after.Keys == vk.Keys
    requires forall name :: name in vk ==> |after[name].rows| == |vk[name].rows|
    ensures forall d :: Targets(after, d) == Targets(vk, d)
  {
  }

  datatype PatchRun = PatchRun(outcomes: seq<PatchOutcome>, store: Container)

  /** The `update_objekt_id` calls of `_update_vk_with_geofa_ids`, in order.
      Each call returns; it returns `True` exactly when it can aim at its
      entry in the original store, since no call adds or removes rows. */
  function PatchAll(vk: Container, ds: seq<Detail>): (r: PatchRun)
    ensures |r.outcomes| == |ds|
    ensures r.store.Keys == vk.Keys
    ensures forall name :: name in vk ==> |r.store[name].rows| == |vk[name].rows|
    ensures forall i :: 0 <= i < |ds| ==> r.outcomes[i] == Returned(Targets(vk, ds[i]))
    decreases |ds|
  {
    if |ds| == 0 then PatchRun([], vk)
    else
      var p := Vk.UpdateObjektId(vk, ds[0].layerName, ds[0].fid, ds[0].newObjektId);
      var rest := PatchAll(p.store, ds[1..]);
      TargetsKept(vk, p.store);
      PatchRun([Returned(p.ok)] + rest.outcomes, rest.store)
  }

  /** A row no entry aims at keeps its cells. */
  lemma {:induction false} PatchAllFrame(vk: Container, ds: seq<Detail>, name: string, fid: nat)
    requires name in vk && fid < |vk[name].rows|
    requires forall i :: 0 <= i < |ds| ==> !(ds[i].layerName == name && ds[i].fid == fid)
    ensures PatchAll(vk, ds).store[name].rows[fid] == vk[name].rows[fid]
    decreases |ds|
  {
    if |ds| > 0 {
      var p := Vk.UpdateObjektId(vk, ds[0].layerName, ds[0].fid, ds[0].newObjektId);
      PatchAllFrame(p.store, ds[1..], name, fid);
    }
  }

  /** No two entries aim at the same VK row. */
  predicate DistinctTargets(ds: seq<Detail>) {
    forall a, b :: 0 <= a < b < |ds| ==> !(ds[a].layerName == ds[b].layerName && ds[a].fid == ds[b].fid)
  }

  /** With distinct targets, every entry that can be aimed at leaves its id in
      its row. */
  lemma {:induction false} PatchAllSetsEach(vk: Container, ds: seq<Detail>, i: nat)
    requires DistinctTargets(ds) && i < |ds| && Targets(vk, ds[i])
    ensures ds[i].layerName in PatchAll(vk, ds).store
    ensures 0 <= ds[i].fid < |PatchAll(vk, ds).store[ds[i].layerName].rows|
    ensures Get(PatchAll(vk, ds).store[ds[i].layerName].rows[ds[i].fid], Vk.ObjektIdColumn) == Str(ds[i].newObjektId)
    decreases |ds|
  {
    var p := Vk.UpdateObjektId(vk, ds[0].layerName, ds[0].fid, ds[0].newObjektId);
    TargetsKept(vk, p.store);
    assert DistinctTargets(ds[1..]) by {
      forall a, b | 0 <= a < b < |ds| - 1
        ensures !(ds[1..][a].layerName == ds[1..][b].layerName && ds[1..][a].fid == ds[1..][b].fid)
      {
        assert ds[1..][a] == ds[a + 1] && ds[1..][b] == ds[b + 1];
      }
    }
    if i == 0 {
      forall k | 0 <= k < |ds| - 1 ensures !(ds[1..][k].layerName == ds[0].layerName && ds[1..][k].fid == ds[0].fid) {
        assert ds[1..][k] == ds[k + 1];
      }
      PatchAllFrame(p.store, ds[1..], ds[0].layerName, ds[0].fid);
    } else {
      assert ds[1..][i - 1] == ds[i];
      PatchAllSetsEach(p.store, ds[1..], i - 1);
    }
  }

  /** The write-back changes no cell but `objekt_id`. */
  lemma {:induction false} PatchAllOnlyObjektId(vk: Container, ds: seq<Detail>, name: string, fid: nat, column: string)
    requires name in vk && fid < |vk[name].rows| && column != Vk.ObjektIdColumn
    ensures Get(PatchAll(vk, ds).store[name].rows[fid], column) == Get(vk[name].rows[fid], column)
    decreases |ds|
  {
    if |ds| > 0 {
      var p := Vk.UpdateObjektId(vk, ds[0].layerName, ds[0].fid, ds[0].newObjektId);
      PatchAllOnlyObjektId(p.store, ds[1..], name, fid, column);
    }
  }

  datatype Patched = Patched(counts: Counts, store: Container)

  /** `_update_vk_with_geofa_ids(sync_results)` against the VK store: since
      `update_objekt_id` never raises, every entry counts as a success and
      the error count is 0, whether or not a row was written. */
  function UpdateVkWithGeofaIds(vk: Container, ds: seq<Detail>): (r: Patched)
    ensures r.counts.success == |ds| && r.counts.errors == 0
    ensures r.store.Keys == vk.Keys
    ensures forall name :: name in vk ==> |r.store[name].rows| == |vk[name].rows|
  {
    var run := PatchAll(vk, ds);
    Patched(CountPatchOutcomes(run.outcomes), run.store)
  }

  // ---------------------------------------------------------------------
  // The pipeline
  // ---------------------------------------------------------------------

  datatype SyncResult = SyncResult(
    totalObjects: nat,
    alreadySynced: nat,
    newlySynced: nat,
    errors: nat,
    syncDetails: seq<Detail>)

  /** The result and both stores after a run. */
  datatype SyncRun = SyncRun(result: SyncResult, vk: Container, geofa: Container)

  /** `DatabaseSync.sync_new_objects` once the threshold `since` is fixed.
      `newId(i)` stands for the uuid drawn for the i-th object that needs
      syncing. A failing VK read and a fetched frame without an `objekt_id`
      column raise out of the run. */
  function SyncSince(vk: Container, geofa: Container, since: int, newId: nat -> string): (r: Result<SyncRun>)
    ensures var fetched := Vk.GetObjectsByDate(vk, since, None, None);
      r.Success? <==> (fetched.Success?
        && (|fetched.value.rows| == 0 || Vk.ObjektIdColumn in fetched.value.columns))
    ensures r.Success? ==>
      var fetched := Vk.GetObjectsByDate(vk, since, None, None).value;
      var res := r.value.result;
      && res.totalObjects == |fetched.rows|
      && res.alreadySynced == |fetched.rows| - |FilterRows(fetched.rows)|
      && res.newlySynced + res.errors == |res.syncDetails|
      && res.errors == 0
      && (|FilterRows(fetched.rows)| == 0 ==>
            res.newlySynced == 0 && res.syncDetails == [] && r.value.vk == vk && r.value.geofa == geofa)
      && (|FilterRows(fetched.rows)| > 0 ==>
            && res.syncDetails == ExpectedDetails(FilterRows(fetched.rows), NavnColumn in fetched.columns,
                                                  geofa.Keys, newId, 0, FrameIndex)
            && r.value.vk == PatchAll(vk, res.syncDetails).store
            && r.value.geofa == CreateObjectsInGeofa(FilterObjectsWithoutId(fetched), geofa, newId).store)
  {
    var fetched :- Vk.GetObjectsByDate(vk, since, None, None);
    if |fetched.rows| == 0 then Success(SyncRun(SyncResult(0, 0, 0, 0, []), vk, geofa))
    else if Vk.ObjektIdColumn !in fetched.columns then Failure(MissingColumn(Vk.ObjektIdColumn))
    else
      var needs := FilterObjectsWithoutId(fetched);
      var already := |fetched.rows| - |needs.rows|;
      if |needs.rows| == 0 then Success(SyncRun(SyncResult(|fetched.rows|, already, 0, 0, []), vk, geofa))
      else
        var batch := CreateObjectsInGeofa(needs, geofa, newId);
        var patched := UpdateVkWithGeofaIds(vk, batch.details);
        Success(SyncRun(
          SyncResult(|fetched.rows|, already, patched.counts.success, patched.counts.errors, batch.details),
          patched.store, batch.store))
  }

  /** `DatabaseSync.sync_new_objects(since_date)`: without a date the run
      fetches from 2000-01-01. Every entry is reported as synced and the
      error count is always 0, whatever the write-back did. */
  function SyncNewObjects(vk: Container, geofa: Container, sinceDate: Option<int>, newId: nat -> string): (r: Result<SyncRun>)
    ensures r.Success? ==>
      && r.value.result.errors == 0
      && r.value.result.newlySynced == |r.value.result.syncDetails|
  {
    SyncSince(vk, geofa, sinceDate.GetOr(Y2K), newId)
  }

  /** A fetch that finds nothing reports all-zero counters and no details and
      touches neither store. */
  lemma EmptyFetchReportsZero(vk: Container, geofa: Container, since: int, newId: nat -> string)
    requires Vk.GetObjectsByDate(vk, since, None, None).Success?
    requires |Vk.GetObjectsByDate(vk, since, None, None).value.rows| == 0
    ensures SyncSince(vk, geofa, since, newId)
      == Success(SyncRun(SyncResult(0, 0, 0, 0, []), vk, geofa))
  {
  }

  /** Without a date the run is the run from 2000-01-01. */
  lemma DefaultThreshold(vk: Container, geofa: Container, newId: nat -> string)
    ensures SyncNewObjects(vk, geofa, None, newId) == SyncNewObjects(vk, geofa, Some(Y2K), newId)
  {
  }

  /** The row a detail of a renumbered frame stems from. */
  lemma FrameRowOfDetail(rows: seq<Vk.Row>, hasNavn: bool, geofaLayers: set<string>, newId: nat -> string, i: nat)
    returns (j: nat)
    requires forall j :: 0 <= j < |rows| ==> rows[j].index == j
    requires i < |ExpectedDetails(FilterRows(rows), hasNavn, geofaLayers, newId, 0, FrameIndex)|
    ensures var d := ExpectedDetails(FilterRows(rows), hasNavn, geofaLayers, newId, 0, FrameIndex)[i];
      && j < |rows|
      && rows[j].index == j == d.fid
      && NeedsSync(rows[j].rec)
      && Creatable(geofaLayers, rows[j].rec)
      && ParseTemakode(Get(rows[j].rec, TemakodeColumn)) == Some(d.temakode)
      && d.layerName == LayerNameFromTemakode(d.temakode)
  {
    var needs := FilterRows(rows);
    var mask := CreatableMask(needs, geofaLayers);
    var draws := Marked(mask, 0);
    DescribeAt(needs, 0, draws, hasNavn, newId, FrameIndex, i);
    var row := needs[draws[i]];
    assert mask[draws[i]];
    assert Creatable(geofaLayers, row.rec) && NeedsSync(row.rec);
    assert row in rows;
    j :| 0 <= j < |rows| && rows[j] == row;
  }

  /** Each detail of a renumbered frame stems from a row that needs syncing
      and can be created: `fid` is its index and `layer_name` is named from
      its code. */
  lemma FrameDetailsDescribeRows(rows: seq<Vk.Row>, hasNavn: bool, geofaLayers: set<string>, newId: nat -> string, i: nat)
    requires forall j :: 0 <= j < |rows| ==> rows[j].index == j
    requires i < |ExpectedDetails(FilterRows(rows), hasNavn, geofaLayers, newId, 0, FrameIndex)|
    ensures var d := ExpectedDetails(FilterRows(rows), hasNavn, geofaLayers, newId, 0, FrameIndex)[i];
      exists j :: (0 <= j < |rows|
        && rows[j].index == j == d.fid
        && NeedsSync(rows[j].rec)
        && Creatable(geofaLayers, rows[j].rec)
        && ParseTemakode(Get(rows[j].rec, TemakodeColumn)) == Some(d.temakode)
        && d.layerName == LayerNameFromTemakode(d.temakode))
  {
    var j := FrameRowOfDetail(rows, hasNavn, geofaLayers, newId, i);
  }

  /** Each reported entry stems from a fetched object that needed syncing and
      could be created: its `fid` is that object's index in the fetched frame
      and its `layer_name` is named from the object's code. */
  lemma SyncDetailsDescribeObjects(vk: Container, geofa: Container, since: int, newId: nat -> string, i: nat)
    requires SyncSince(vk, geofa, since, newId).Success?
    requires i < |SyncSince(vk, geofa, since, newId).value.result.syncDetails|
    ensures var fetched := Vk.GetObjectsByDate(vk, since, None, None).value;
      var d := SyncSince(vk, geofa, since, newId).value.result.syncDetails[i];
      exists j :: (0 <= j < |fetched.rows|
        && fetched.rows[j].index == j == d.fid
        && NeedsSync(fetched.rows[j].rec)
        && Creatable(geofa.Keys, fetched.rows[j].rec)
        && ParseTemakode(Get(fetched.rows[j].rec, TemakodeColumn)) == Some(d.temakode)
        && d.layerName == LayerNameFromTemakode(d.temakode))
  {
    var fetched, j := SyncDetailRow(vk, geofa, since, newId, i);
  }

  /** The fetched frame and the row of it that reported entry `i` stems from. */
  lemma SyncDetailRow(vk: Container, geofa: Container, since: int, newId: nat -> string, i: nat)
    returns (fetched: Vk.Frame, j: nat)
    requires SyncSince(vk, geofa, since, newId).Success?
    requires i < |SyncSince(vk, geofa, since, newId).value.result.syncDetails|
    ensures Vk.GetObjectsByDate(vk, since, None, None) == Success(fetched)
    ensures var d := SyncSince(vk, geofa, since, newId).value.result.syncDetails[i];
      && j < |fetched.rows|
      && fetched.rows[j].index == j == d.fid
      && NeedsSync(fetched.rows[j].rec)
      && Creatable(geofa.Keys, fetched.rows[j].rec)
      && ParseTemakode(Get(fetched.rows[j].rec, TemakodeColumn)) == Some(d.temakode)
      && d.layerName == LayerNameFromTemakode(d.temakode)
  {
    fetched := Vk.GetObjectsByDate(vk, since, None, None).value;
    j := FrameRowOfDetail(fetched.rows, NavnColumn in fetched.columns, geofa.Keys, newId, i);
  }
}
