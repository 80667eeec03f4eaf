/** The in-memory shape of a GeoPackage: a container maps layer names to
    layers, a layer is a set of column names and a sequence of records, and a
    record maps column names to cell values. A column a record does not hold
    reads as `Null`, which is how pandas fills a column one frame of a
    concatenation lacks. */
module Tables {
  import opened Wrappers

  /** shapely's `geom_type`. */
  datatype GeomKind =
    | Point | MultiPoint
    | LineString | MultiLineString
    | Polygon | MultiPolygon
    | LinearRing | GeometryCollection

  datatype Coord = Coord(x: int, y: int)

  datatype Geometry = Geometry(kind: GeomKind, coords: seq<Coord>)

  /** A cell: null (None/NaN/NaT), text, integer, timestamp in seconds since
      the Unix epoch (UTC) or geometry. */
  datatype Value = Null | Str(s: string) | Int(i: int) | Time(t: int) | Geom(g: Geometry)

  type Record = map<string, Value>

  /** The cell of `column`, `Null` when the record has none. */
  function Get(r: Record, column: string): Value {
    if column in r then r[column] else Null
  }

  datatype Layer = Layer(columns: set<string>, rows: seq<Record>)

  /** A GeoPackage file: named layers. */
  type Container = map<string, Layer>

  /** The layers of a file that may not exist yet (`None`). */
  function LayersOf(file: Option<Container>): Container {
    if file.Some? then file.value else map[]
  }

  /** `gdf.to_file(path, layer=name)`: creates the file when it does not exist
      and replaces the named layer wholesale; every other layer stays. */
  function WriteLayer(file: Option<Container>, name: string, layer: Layer): (r: Container)
    ensures r.Keys == LayersOf(file).Keys + {name}
    ensures r[name] == layer
    ensures forall k :: k in r && k != name ==> r[k] == LayersOf(file)[k]
  {
    LayersOf(file)[name := layer]
  }

  datatype LayerWrite = LayerWrite(name: string, layer: Layer)

  /** The file after a sequence of `to_file` calls, in order. */
  function ApplyWrites(file: Option<Container>, ws: seq<LayerWrite>): (r: Option<Container>)
    ensures |ws| > 0 ==> r.Some?
  {
    if |ws| == 0 then file
    else Some(WriteLayer(ApplyWrites(file, ws[..|ws| - 1]), ws[|ws| - 1].name, ws[|ws| - 1].layer))
  }

  /** A layer is present after the writes iff it was present before or some
      write named it. */
  lemma {:induction false} ApplyWritesKeys(file: Option<Container>, ws: seq<LayerWrite>, k: string)
    ensures k in LayersOf(ApplyWrites(file, ws))
        <==> k in LayersOf(file) || exists i :: 0 <= i < |ws| && ws[i].name == k
  {
    if |ws| > 0 {
      var init := ws[..|ws| - 1];
      ApplyWritesKeys(file, init, k);
      if exists i :: 0 <= i < |init| && init[i].name == k {
        var i :| 0 <= i < |init| && init[i].name == k;
        assert ws[i].name == k;
      }
      if exists i :: 0 <= i < |ws| && ws[i].name == k {
        var i :| 0 <= i < |ws| && ws[i].name == k;
        if i < |init| {
          assert init[i].name == k;
        }
      }
    }
  }

  /** The last write to a name decides that layer's content. */
  lemma {:induction false} ApplyWritesLastWins(file: Option<Container>, ws: seq<LayerWrite>, j: nat)
    requires j < |ws|
    requires forall i :: j < i < |ws| ==> ws[i].name != ws[j].name
    ensures ws[j].name in LayersOf(ApplyWrites(file, ws))
    ensures LayersOf(ApplyWrites(file, ws))[ws[j].name] == ws[j].layer
  {
    if j < |ws| - 1 {
      ApplyWritesLastWins(file, ws[..|ws| - 1], j);
    }
  }

  /** Every layer the writes produce from nothing carries the content of
      some write to that name. */
  lemma {:induction false} ApplyWritesFromSomeWrite(ws: seq<LayerWrite>, k: string)
    requires k in LayersOf(ApplyWrites(None, ws))
    ensures exists i :: 0 <= i < |ws| && ws[i].name == k && LayersOf(ApplyWrites(None, ws))[k] == ws[i].layer
  {
    var last := ws[|ws| - 1];
    if last.name != k {
      var init := ws[..|ws| - 1];
      ApplyWritesFromSomeWrite(init, k);
      var i :| 0 <= i < |init| && init[i].name == k
        && LayersOf(ApplyWrites(None, init))[k] == init[i].layer;
      assert ws[i] == init[i];
    } else {
      assert ws[|ws| - 1].name == k;
    }
  }
}
