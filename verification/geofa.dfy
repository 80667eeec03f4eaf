/** The GeoFA store (the national register that issues object ids): creating
    one facility object in the layer its geometry belongs to. */
module Geofa {
  import opened Wrappers
  import opened Tables

  const PointLayer := "5800_fac_pkt"
  const PolygonLayer := "5801_fac_fl"
  const LineLayer := "5802_fac_li"

  const ObjektIdColumn := "objekt_id"
  const TemakodeColumn := "temakode"
  const GeometryColumn := "geometry"
  const TemanavnColumn := "temanavn"

  /** The columns `create_object` fills in; every other column of the new row is null. */
  const FilledColumns: set<string> := {ObjektIdColumn, TemakodeColumn, GeometryColumn, TemanavnColumn}

  /** shapely's name of a geometry kind, as the ValueError message carries it. */
  function KindName(k: GeomKind): string {
    match k
    case Point => "Point"
    case MultiPoint => "MultiPoint"
    case LineString => "LineString"
    case MultiLineString => "MultiLineString"
    case Polygon => "Polygon"
    case MultiPolygon => "MultiPolygon"
    case LinearRing => "LinearRing"
    case GeometryCollection => "GeometryCollection"
  }

  /** `GeoFA._infer_layer_from_geometry`: the target layer comes from the
      geometry kind alone. A cell without a geometry fails on `geom_type`. */
  function InferLayer(geometry: Value): (r: Result<string>)
    ensures r.Success? <==> geometry.Geom? && geometry.g.kind !in {LinearRing, GeometryCollection}
    ensures r.Success? ==> r.value in {PointLayer, PolygonLayer, LineLayer}
    ensures geometry.Geom? && geometry.g.kind in {Point, MultiPoint} ==> r == Success(PointLayer)
    ensures geometry.Geom? && geometry.g.kind in {Polygon, MultiPolygon} ==> r == Success(PolygonLayer)
    ensures geometry.Geom? && geometry.g.kind in {LineString, MultiLineString} ==> r == Success(LineLayer)
    ensures geometry.Geom? && r.Failure? ==> r.error == UnsupportedGeometry(KindName(geometry.g.kind))
    ensures !geometry.Geom? ==> r == Failure(NotAGeometry)
  {
    if !geometry.Geom? then Failure(NotAGeometry)
    else
      match geometry.g.kind
      case Point => Success(PointLayer)
      case MultiPoint => Success(PointLayer)
      case Polygon => Success(PolygonLayer)
      case MultiPolygon => Success(PolygonLayer)
      case LineString => Success(LineLayer)
      case MultiLineString => Success(LineLayer)
      case _ => Failure(UnsupportedGeometry(KindName(geometry.g.kind)))
  }

  /** The point kinds, the polygon kinds and the line kinds each share one
      layer, and no two of these families share a layer. */
  lemma RoutingByFamily(a: GeomKind, b: GeomKind, ca: seq<Coord>, cb: seq<Coord>)
    requires InferLayer(Geom(Geometry(a, ca))).Success? && InferLayer(Geom(Geometry(b, cb))).Success?
    ensures InferLayer(Geom(Geometry(a, ca))) == InferLayer(Geom(Geometry(b, cb)))
      <==> ((a in {Point, MultiPoint} <==> b in {Point, MultiPoint})
        && (a in {Polygon, MultiPolygon} <==> b in {Polygon, MultiPolygon}))
  {
  }

  /** `temanavn_map.get(temakode)`: keyed on the code, null for any other code.
      Each theme's name is its GeoFA layer's name wrapped in `t_` and `_t`. */
  function TemanavnFor(temakode: int): (v: Value)
    ensures v != Null <==> temakode in {5800, 5801, 5802}
    ensures temakode == 5800 ==> v == Str("t_" + PointLayer + "_t")
    ensures temakode == 5801 ==> v == Str("t_" + PolygonLayer + "_t")
    ensures temakode == 5802 ==> v == Str("t_" + LineLayer + "_t")
  {
    if temakode == 5800 then
      assert "t_" + PointLayer + "_t" == "t_5800_fac_pkt_t";
      Str("t_5800_fac_pkt_t")
    else if temakode == 5801 then
      assert "t_" + PolygonLayer + "_t" == "t_5801_fac_fl_t";
      Str("t_5801_fac_fl_t")
    else if temakode == 5802 then
      assert "t_" + LineLayer + "_t" == "t_5802_fac_li_t";
      Str("t_5802_fac_li_t")
    else Null
  }

  /** The row `create_object` appends: every column of the layer null except
      the four it fills. */
  function NewRow(columns: set<string>, temakode: int, geometry: Value, newId: string): Record {
    (map c | c in columns :: Null)[ObjektIdColumn := Str(newId)][TemakodeColumn := Int(temakode)]
      [GeometryColumn := geometry][TemanavnColumn := TemanavnFor(temakode)]
  }

  /** The id `create_object` returns and the GeoFA store after its write. */
  datatype Created = Created(id: string, store: Container)

  /** `GeoFA.create_object(temakode, geometry)` with `newId` standing for the
      `uuid4()` the call draws. Routing errors and a missing target layer
      raise and nothing is written; otherwise the target layer gains exactly
      one row, at the end, and the id stored in it is returned. */
  function CreateObject(geofa: Container, temakode: int, geometry: Value, newId: string): (r: Result<Created>)
    ensures r.Success? <==> InferLayer(geometry).Success? && InferLayer(geometry).value in geofa
    ensures InferLayer(geometry).Failure? ==> r == Failure(InferLayer(geometry).error)
    ensures InferLayer(geometry).Success? && InferLayer(geometry).value !in geofa
      ==> r == Failure(LayerNotFound(InferLayer(geometry).value))
    ensures r.Success? ==> r.value.store.Keys == geofa.Keys
    ensures r.Success? ==>
      var target := InferLayer(geometry).value;
      var before := geofa[target];
      var after := r.value.store[target];
      && r.value.id == newId
      && (forall name :: name in geofa && name != target ==> r.value.store[name] == geofa[name])
      && after.columns == before.columns + FilledColumns
      && |after.rows| == |before.rows| + 1
      && after.rows[..|before.rows|] == before.rows
      && Get(after.rows[|before.rows|], ObjektIdColumn) == Str(r.value.id)
      && Get(after.rows[|before.rows|], TemakodeColumn) == Int(temakode)
      && Get(after.rows[|before.rows|], GeometryColumn) == geometry
      && Get(after.rows[|before.rows|], TemanavnColumn) == TemanavnFor(temakode)
      && (forall c :: c !in FilledColumns ==> Get(after.rows[|before.rows|], c) == Null)
  {
    var target :- InferLayer(geometry);
    if target !in geofa then Failure(LayerNotFound(target))
    else
      var layer := geofa[target];
      var appended := Layer(layer.columns + FilledColumns, layer.rows + [NewRow(layer.columns, temakode, geometry, newId)]);
      Success(Created(newId, geofa[target := appended]))
  }

  /** The code passed in never changes where the object lands: two calls that
      differ only in `temakode` succeed together and grow the same layer. */
  lemma CreateObjectRoutingIgnoresTemakode(geofa: Container, k1: int, k2: int, geometry: Value, newId: string)
    ensures CreateObject(geofa, k1, geometry, newId).Success? <==> CreateObject(geofa, k2, geometry, newId).Success?
    ensures CreateObject(geofa, k1, geometry, newId).Success? ==>
      forall name :: name in geofa ==>
        |CreateObject(geofa, k1, geometry, newId).value.store[name].rows|
          == |CreateObject(geofa, k2, geometry, newId).value.store[name].rows|
  {
  }

  /** A polygon passed with code 5800 lands in the polygon layer, still
      carrying 5800 and the point layer's `temanavn`: the mismatch is not checked. */
  lemma MismatchedCodeNotValidated(geofa: Container, coords: seq<Coord>, newId: string)
    requires PolygonLayer in geofa
    ensures var r := CreateObject(geofa, 5800, Geom(Geometry(Polygon, coords)), newId);
      && r.Success?
      && |r.value.store[PolygonLayer].rows| == |geofa[PolygonLayer].rows| + 1
      && (PointLayer in geofa ==> r.value.store[PointLayer] == geofa[PointLayer])
      && Get(r.value.store[PolygonLayer].rows[|geofa[PolygonLayer].rows|], TemakodeColumn) == Int(5800)
      && Get(r.value.store[PolygonLayer].rows[|geofa[PolygonLayer].rows|], TemanavnColumn) == Str("t_5800_fac_pkt_t")
  {
  }
}
