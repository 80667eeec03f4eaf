/** The VK store (the municipality's data master): the creation-date query
    over its three facility layers and the write-back of a GeoFA object id
    into one row. */
module Vk {
  import opened Wrappers
  import opened Tables

  const PointLayer := "GeoFA_5800_fac_pkt"
  const PolygonLayer := "GeoFA_5801_fac_fl"
  const LineLayer := "GeoFA_5802_fac_li"

  /** The layers a query scans when it names none, in scan order. */
  const AllLayers: seq<string> := [PointLayer, PolygonLayer, LineLayer]

  const OprettetColumn := "oprettet"
  const ObjektIdColumn := "objekt_id"

  predicate NoDup(names: seq<string>) {
    forall i, j :: 0 <= i < j < |names| ==> names[i] != names[j]
  }

  /** The VK layer and row position a fetched row was read from. pandas does
      not keep this once the per-layer frames are concatenated; the model
      keeps it so that statements about the write-back can name the row. */
  datatype Origin = Origin(layer: string, fid: nat)

  /** A frame row: its pandas index label, its origin and its cells. */
  datatype Row = Row(index: int, origin: Origin, rec: Record)

  datatype Frame = Frame(columns: set<string>, rows: seq<Row>)

  /** The creation-time window: inclusive at `start`, inclusive at `end` when
      there is one, unbounded above otherwise. A cell that holds no timestamp
      (NaT) compares false and is never selected. */
  predicate InWindow(v: Value, start: int, end: Option<int>) {
    v.Time? && start <= v.t && (end.None? || v.t <= end.value)
  }

  /** `[layer_name] if layer_name else all_layers`: an empty name is falsy
      in Python and also selects all three layers. */
  function LayersToQuery(layerName: Option<string>): (r: seq<string>)
    ensures |r| > 0 && NoDup(r)
    ensures layerName.Some? && layerName.value != "" ==> r == [layerName.value]
    ensures layerName.None? || layerName.value == "" ==> r == AllLayers
  {
    if layerName.Some? && layerName.value != "" then [layerName.value] else AllLayers
  }

  /** `row` is a row of a scanned layer that has an `oprettet` column, its
      cells are those stored at its origin, and its creation time is in the window. */
  predicate Fetched(vk: Container, layers: seq<string>, row: Row, start: int, end: Option<int>) {
    && row.origin.layer in layers
    && row.origin.layer in vk
    && OprettetColumn in vk[row.origin.layer].columns
    && row.origin.fid < |vk[row.origin.layer].rows|
    && row.rec == vk[row.origin.layer].rows[row.origin.fid]
    && InWindow(Get(row.rec, OprettetColumn), start, end)
  }

  /** Rows of one layer keep their source order; this also makes origins distinct. */
  predicate SourceOrdered(rows: seq<Row>) {
    forall i, j :: 0 <= i < j < |rows| && rows[i].origin.layer == rows[j].origin.layer
      ==> rows[i].origin.fid < rows[j].origin.fid
  }

  /** The position of `name` in `layers`, or `|layers|` when it is absent. */
  function LayerRank(layers: seq<string>, name: string): (k: nat)
    ensures k <= |layers|
    ensures k < |layers| ==> layers[k] == name
    ensures forall j :: 0 <= j < k ==> layers[j] != name
  {
    if |layers| == 0 then 0
    else if layers[0] == name then 0
    else 1 + LayerRank(layers[1..], name)
  }

  /** The rows come layer by layer, in the order the layers were scanned. */
  predicate LayerOrdered(rows: seq<Row>, layers: seq<string>) {
    forall i, j :: 0 <= i < j < |rows| ==>
      LayerRank(layers, rows[i].origin.layer) <= LayerRank(layers, rows[j].origin.layer)
  }

  lemma SourceOrderedTail(rows: seq<Row>)
    requires |rows| > 0 && SourceOrdered(rows)
    ensures SourceOrdered(rows[1..])
  {
    forall i, j | 0 <= i < j < |rows| - 1 && rows[1..][i].origin.layer == rows[1..][j].origin.layer
      ensures rows[1..][i].origin.fid < rows[1..][j].origin.fid
    {
      assert rows[1..][i] == rows[i + 1] && rows[1..][j] == rows[j + 1];
    }
  }

  lemma SourceOrderedCons(row: Row, rest: seq<Row>)
    requires SourceOrdered(rest)
    requires forall j :: 0 <= j < |rest| && rest[j].origin.layer == row.origin.layer ==> row.origin.fid < rest[j].origin.fid
    ensures SourceOrdered([row] + rest)
  {
    var rows := [row] + rest;
    forall i, j | 0 <= i < j < |rows| && rows[i].origin.layer == rows[j].origin.layer
      ensures rows[i].origin.fid < rows[j].origin.fid
    {
      assert rows[j] == rest[j - 1];
      if i > 0 {
        assert rows[i] == rest[i - 1];
      }
    }
  }

  /** The rows of one layer whose `oprettet` lies in the window, with their
      layer-position index, as `gdf[gdf["oprettet"] >= start ...]` leaves them. */
  function SelectRows(name: string, rows: seq<Record>, start: int, end: Option<int>): (r: seq<Row>)
    ensures forall i :: 0 <= i < |r| ==>
      && r[i].origin.layer == name
      && r[i].index == r[i].origin.fid < |rows|
      && r[i].rec == rows[r[i].origin.fid]
      && InWindow(Get(r[i].rec, OprettetColumn), start, end)
    ensures SourceOrdered(r)
  {
    if |rows| == 0 then []
    else
      var n := |rows| - 1;
      SelectRows(name, rows[..n], start, end)
        + (if InWindow(Get(rows[n], OprettetColumn), start, end) then [Row(n, Origin(name, n), rows[n])] else [])
  }

  /** Every in-window row of the layer is selected. */
  lemma {:induction false} SelectRowsComplete(name: string, rows: seq<Record>, start: int, end: Option<int>, fid: nat)
    requires fid < |rows| && InWindow(Get(rows[fid], OprettetColumn), start, end)
    ensures exists i :: (0 <= i < |SelectRows(name, rows, start, end)|
      && SelectRows(name, rows, start, end)[i].origin == Origin(name, fid))
  {
    var n := |rows| - 1;
    var prev := SelectRows(name, rows[..n], start, end);
    if fid == n {
      assert SelectRows(name, rows, start, end)[|prev|].origin == Origin(name, fid);
    } else {
      SelectRowsComplete(name, rows[..n], start, end, fid);
      var i :| 0 <= i < |prev| && prev[i].origin == Origin(name, fid);
      assert SelectRows(name, rows, start, end)[i] == prev[i];
    }
  }

  /** The union of the columns of the layers the rows come from: the columns
      `pd.concat` gives a frame built from those rows' layers. */
  function RowColumns(vk: Container, rows: seq<Row>): set<string> {
    if |rows| == 0 then {}
    else (if rows[0].origin.layer in vk then vk[rows[0].origin.layer].columns else {}) + RowColumns(vk, rows[1..])
  }

  /** The columns of a concatenation are the union of both parts' columns. */
  lemma {:induction false} RowColumnsConcat(vk: Container, a: seq<Row>, b: seq<Row>)
    ensures RowColumns(vk, a + b) == RowColumns(vk, a) + RowColumns(vk, b)
  {
    if |a| == 0 {
      assert a + b == b;
    } else {
      assert (a + b)[1..] == a[1..] + b;
      RowColumnsConcat(vk, a[1..], b);
    }
  }

  /** Putting rows of one layer in front of a frame adds that layer's columns. */
  lemma ColumnsOfLayerFirst(vk: Container, name: string, kept: seq<Row>, columns: set<string>, rest: seq<Row>)
    requires name in vk && |kept| > 0
    requires forall i :: 0 <= i < |kept| ==> kept[i].origin.layer == name
    requires columns == RowColumns(vk, rest)
    ensures vk[name].columns + columns == RowColumns(vk, kept + rest)
  {
    RowColumnsOneLayer(vk, name, kept);
    RowColumnsConcat(vk, kept, rest);
  }

  /** Only the rows' origins decide their columns. */
  lemma {:induction false} RowColumnsSameOrigins(vk: Container, a: seq<Row>, b: seq<Row>)
    requires |a| == |b| && forall i :: 0 <= i < |a| ==> a[i].origin == b[i].origin
    ensures RowColumns(vk, a) == RowColumns(vk, b)
  {
    if |a| > 0 {
      RowColumnsSameOrigins(vk, a[1..], b[1..]);
    }
  }

  /** Rows that all come from one layer contribute exactly its columns. */
  lemma {:induction false} RowColumnsOneLayer(vk: Container, name: string, rows: seq<Row>)
    requires name in vk && |rows| > 0
    requires forall i :: 0 <= i < |rows| ==> rows[i].origin.layer == name
    ensures RowColumns(vk, rows) == vk[name].columns
  {
    if |rows| > 1 {
      RowColumnsOneLayer(vk, name, rows[1..]);
    }
  }

  /** The rows one layer adds to the scan: none when it has no `oprettet`. */
  function LayerSelection(vk: Container, name: string, start: int, end: Option<int>): seq<Row>
    requires name in vk
  {
    if OprettetColumn in vk[name].columns then SelectRows(name, vk[name].rows, start, end) else []
  }

  /** The rows a layer adds are fetched rows of that layer. */
  lemma LayerSelectionFetched(vk: Container, layers: seq<string>, start: int, end: Option<int>)
    requires |layers| > 0 && layers[0] in vk
    ensures forall i :: 0 <= i < |LayerSelection(vk, layers[0], start, end)| ==>
      && LayerSelection(vk, layers[0], start, end)[i].origin.layer == layers[0]
      && Fetched(vk, layers, LayerSelection(vk, layers[0], start, end)[i], start, end)
  {
  }

  /** The loop over the layers to query: a missing layer raises; a layer
      without `oprettet` contributes nothing; a layer whose selection is empty
      is not appended. Rows still carry their layer-position index here. */
  function Scan(vk: Container, layers: seq<string>, start: int, end: Option<int>): (r: Result<Frame>)
    ensures r.Success? <==> forall name :: name in layers ==> name in vk
    ensures r.Success? ==> forall i :: 0 <= i < |r.value.rows| ==>
      Fetched(vk, layers, r.value.rows[i], start, end) && vk[r.value.rows[i].origin.layer].columns <= r.value.columns
    ensures r.Success? ==> r.value.columns == RowColumns(vk, r.value.rows)
  {
    if |layers| == 0 then Success(Frame({}, []))
    else if layers[0] !in vk then Failure(LayerNotFound(layers[0]))
    else
      var layer := vk[layers[0]];
      var kept := if OprettetColumn in layer.columns then SelectRows(layers[0], layer.rows, start, end) else [];
      var rest := Scan(vk, layers[1..], start, end);
      if rest.Failure? then rest
      else
        ScanTailFetched(vk, layers, start, end, rest.value);
        if |kept| > 0 then
          LayerSelectionFetched(vk, layers, start, end);
          ColumnsOfLayerFirst(vk, layers[0], kept, rest.value.columns, rest.value.rows);
          ScanFrontFetched(vk, layers, start, end, kept, rest.value);
          Success(Frame(vk[layers[0]].columns + rest.value.columns, kept + rest.value.rows))
        else rest
  }

  /** Rows fetched for the later layers are fetched for the whole list. */
  lemma ScanTailFetched(vk: Container, layers: seq<string>, start: int, end: Option<int>, rest: Frame)
    requires |layers| > 0
    requires forall i :: 0 <= i < |rest.rows| ==> Fetched(vk, layers[1..], rest.rows[i], start, end)
    ensures forall i :: 0 <= i < |rest.rows| ==> Fetched(vk, layers, rest.rows[i], start, end)
  {
    forall i | 0 <= i < |rest.rows| ensures rest.rows[i].origin.layer in layers {
      var k :| 0 <= k < |layers[1..]| && layers[1..][k] == rest.rows[i].origin.layer;
      assert layers[k + 1] == layers[1..][k];
    }
  }

  /** The first layer's rows in front of the later layers' frame. */
  lemma ScanFrontFetched(vk: Container, layers: seq<string>, start: int, end: Option<int>, kept: seq<Row>, rest: Frame)
    requires |layers| > 0 && layers[0] in vk
    requires forall i :: 0 <= i < |kept| ==> kept[i].origin.layer == layers[0] && Fetched(vk, layers, kept[i], start, end)
    requires forall i :: 0 <= i < |rest.rows| ==>
      Fetched(vk, layers, rest.rows[i], start, end) && vk[rest.rows[i].origin.layer].columns <= rest.columns
    ensures forall i :: 0 <= i < |kept + rest.rows| ==>
      && Fetched(vk, layers, (kept + rest.rows)[i], start, end)
      && vk[(kept + rest.rows)[i].origin.layer].columns <= vk[layers[0]].columns + rest.columns
  {
    forall i | 0 <= i < |kept + rest.rows|
      ensures Fetched(vk, layers, (kept + rest.rows)[i], start, end)
      ensures vk[(kept + rest.rows)[i].origin.layer].columns <= vk[layers[0]].columns + rest.columns
    {
      if i < |kept| {
        assert (kept + rest.rows)[i] == kept[i];
      } else {
        assert (kept + rest.rows)[i] == rest.rows[i - |kept|];
      }
    }
  }

  /** One step of the scan: the first layer's rows, then the later layers'. */
  lemma ScanStep(vk: Container, layers: seq<string>, start: int, end: Option<int>)
    requires |layers| > 0 && Scan(vk, layers, start, end).Success?
    ensures layers[0] in vk && Scan(vk, layers[1..], start, end).Success?
    ensures Scan(vk, layers, start, end).value.rows
      == LayerSelection(vk, layers[0], start, end) + Scan(vk, layers[1..], start, end).value.rows
  {
    if |LayerSelection(vk, layers[0], start, end)| == 0 {
      assert LayerSelection(vk, layers[0], start, end) + Scan(vk, layers[1..], start, end).value.rows
        == Scan(vk, layers[1..], start, end).value.rows;
    }
  }

  /** Rows of distinct layers never compare, so a scan of distinct layers
      keeps each layer's rows in source order. */
  lemma {:induction false} ScanSourceOrdered(vk: Container, layers: seq<string>, start: int, end: Option<int>)
    requires Scan(vk, layers, start, end).Success? && NoDup(layers)
    ensures SourceOrdered(Scan(vk, layers, start, end).value.rows)
  {
    if |layers| > 0 {
      ScanStep(vk, layers, start, end);
      var kept := LayerSelection(vk, layers[0], start, end);
      var tail := layers[1..];
      var rest := Scan(vk, tail, start, end).value.rows;
      NoDupTail(layers);
      ScanSourceOrdered(vk, tail, start, end);
      ScanTailOtherLayers(vk, layers, start, end);
      SourceOrderedFront(kept, rest, layers[0]);
    }
  }

  /** The later layers' rows never come from the first layer when the layers are distinct. */
  lemma ScanTailOtherLayers(vk: Container, layers: seq<string>, start: int, end: Option<int>)
    requires |layers| > 0 && NoDup(layers) && Scan(vk, layers[1..], start, end).Success?
    ensures forall j :: 0 <= j < |Scan(vk, layers[1..], start, end).value.rows| ==>
      Scan(vk, layers[1..], start, end).value.rows[j].origin.layer in layers[1..]
      && Scan(vk, layers[1..], start, end).value.rows[j].origin.layer != layers[0]
  {
    var rest := Scan(vk, layers[1..], start, end).value.rows;
    forall j | 0 <= j < |rest| ensures rest[j].origin.layer != layers[0] {
      var k :| 0 <= k < |layers[1..]| && layers[1..][k] == rest[j].origin.layer;
      assert layers[k + 1] == layers[1..][k];
    }
  }

  lemma NoDupTail(layers: seq<string>)
    requires |layers| > 0 && NoDup(layers)
    ensures NoDup(layers[1..])
  {
    forall i, j | 0 <= i < j < |layers[1..]| ensures layers[1..][i] != layers[1..][j] {
      assert layers[1..][i] == layers[i + 1] && layers[1..][j] == layers[j + 1];
    }
  }

  /** Source-ordered rows of one layer in front of source-ordered rows of other layers. */
  lemma SourceOrderedFront(kept: seq<Row>, rest: seq<Row>, name: string)
    requires SourceOrdered(kept) && SourceOrdered(rest)
    requires forall i :: 0 <= i < |kept| ==> kept[i].origin.layer == name
    requires forall j :: 0 <= j < |rest| ==> rest[j].origin.layer != name
    ensures SourceOrdered(kept + rest)
  {
    var rows := kept + rest;
    forall i, j | 0 <= i < j < |rows| && rows[i].origin.layer == rows[j].origin.layer
      ensures rows[i].origin.fid < rows[j].origin.fid
    {
      if j < |kept| {
        assert rows[i] == kept[i] && rows[j] == kept[j];
      } else if i >= |kept| {
        assert rows[i] == rest[i - |kept|] && rows[j] == rest[j - |kept|];
      } else {
        // Row i is of layer `name` and row j is not, so they cannot share a layer.
        assert false;
      }
    }
  }

  /** Rows from layers other than the first keep their relative order when
      the first layer is put in front of the scan order. */
  lemma LayerOrderedBehind(rows: seq<Row>, first: string, tail: seq<string>)
    requires LayerOrdered(rows, tail)
    requires forall j :: 0 <= j < |rows| ==> rows[j].origin.layer in tail && rows[j].origin.layer != first
    ensures LayerOrdered(rows, [first] + tail)
  {
    var layers := [first] + tail;
    forall j | 0 <= j < |rows|
      ensures LayerRank(layers, rows[j].origin.layer) == 1 + LayerRank(tail, rows[j].origin.layer)
    {
      assert layers[1..] == tail;
    }
  }

  /** Rows of the first layer, followed by rows in layer order. */
  lemma LayerOrderedFront(kept: seq<Row>, rest: seq<Row>, layers: seq<string>)
    requires |layers| > 0 && LayerOrdered(rest, layers)
    requires forall i :: 0 <= i < |kept| ==> kept[i].origin.layer == layers[0]
    ensures LayerOrdered(kept + rest, layers)
  {
    var rows := kept + rest;
    forall i, j | 0 <= i < j < |rows|
      ensures LayerRank(layers, rows[i].origin.layer) <= LayerRank(layers, rows[j].origin.layer)
    {
      if i < |kept| {
        assert rows[i] == kept[i];
      } else {
        assert rows[i] == rest[i - |kept|] && rows[j] == rest[j - |kept|];
      }
    }
  }

  /** A scan of distinct layers returns the rows of the first layer before
      those of the second, and so on: the per-layer results are concatenated
      in scan order. */
  lemma {:induction false} ScanLayerOrdered(vk: Container, layers: seq<string>, start: int, end: Option<int>)
    requires Scan(vk, layers, start, end).Success? && NoDup(layers)
    ensures LayerOrdered(Scan(vk, layers, start, end).value.rows, layers)
  {
    if |layers| > 0 {
      ScanStep(vk, layers, start, end);
      var kept := LayerSelection(vk, layers[0], start, end);
      var tail := layers[1..];
      var rest := Scan(vk, tail, start, end).value.rows;
      NoDupTail(layers);
      ScanLayerOrdered(vk, tail, start, end);
      ScanTailOtherLayers(vk, layers, start, end);
      assert layers == [layers[0]] + tail;
      LayerOrderedBehind(rest, layers[0], tail);
      LayerOrderedFront(kept, rest, layers);
    }
  }

  /** Where the scan put an in-window row of a scanned layer that has `oprettet`. */
  lemma {:induction false} ScanFind(vk: Container, layers: seq<string>, start: int, end: Option<int>, k: nat, fid: nat)
    returns (i: nat)
    requires Scan(vk, layers, start, end).Success?
    requires k < |layers| && OprettetColumn in vk[layers[k]].columns
    requires fid < |vk[layers[k]].rows| && InWindow(Get(vk[layers[k]].rows[fid], OprettetColumn), start, end)
    ensures i < |Scan(vk, layers, start, end).value.rows|
    ensures Scan(vk, layers, start, end).value.rows[i].origin == Origin(layers[k], fid)
    decreases |layers|, 1
  {
    if k == 0 {
      i := ScanFindFirst(vk, layers, start, end, fid);
    } else {
      i := ScanFindLater(vk, layers, start, end, k, fid);
    }
  }

  /** A row of the first layer is found among that layer's selection. */
  lemma ScanFindFirst(vk: Container, layers: seq<string>, start: int, end: Option<int>, fid: nat) returns (i: nat)
    requires |layers| > 0 && Scan(vk, layers, start, end).Success?
    requires OprettetColumn in vk[layers[0]].columns
    requires fid < |vk[layers[0]].rows| && InWindow(Get(vk[layers[0]].rows[fid], OprettetColumn), start, end)
    ensures i < |Scan(vk, layers, start, end).value.rows|
    ensures Scan(vk, layers, start, end).value.rows[i].origin == Origin(layers[0], fid)
  {
    ScanStep(vk, layers, start, end);
    var kept := LayerSelection(vk, layers[0], start, end);
    var rows := Scan(vk, layers, start, end).value.rows;
    SelectRowsComplete(layers[0], vk[layers[0]].rows, start, end, fid);
    i :| i < |kept| && kept[i].origin == Origin(layers[0], fid);
    assert rows[i] == kept[i];
  }

  /** A row of a later layer is found behind the first layer's selection. */
  lemma {:induction false} ScanFindLater(vk: Container, layers: seq<string>, start: int, end: Option<int>, k: nat, fid: nat)
    returns (i: nat)
    requires Scan(vk, layers, start, end).Success?
    requires 0 < k < |layers| && OprettetColumn in vk[layers[k]].columns
    requires fid < |vk[layers[k]].rows| && InWindow(Get(vk[layers[k]].rows[fid], OprettetColumn), start, end)
    ensures i < |Scan(vk, layers, start, end).value.rows|
    ensures Scan(vk, layers, start, end).value.rows[i].origin == Origin(layers[k], fid)
    decreases |layers|, 0
  {
    ScanTailSucceeds(vk, layers, start, end);
    assert layers[1..][k - 1] == layers[k];
    var i' := ScanFind(vk, layers[1..], start, end, k - 1, fid);
    i := ScanBehind(vk, layers, start, end, i');
  }

  lemma ScanTailSucceeds(vk: Container, layers: seq<string>, start: int, end: Option<int>)
    requires |layers| > 0 && Scan(vk, layers, start, end).Success?
    ensures Scan(vk, layers[1..], start, end).Success?
  {
  }

  /** Row `i` of the later layers' scan sits `i` places behind the first
      layer's rows. */
  lemma ScanBehind(vk: Container, layers: seq<string>, start: int, end: Option<int>, i': nat) returns (i: nat)
    requires |layers| > 0 && Scan(vk, layers, start, end).Success?
    requires i' < |Scan(vk, layers[1..], start, end).value.rows|
    ensures i < |Scan(vk, layers, start, end).value.rows|
    ensures Scan(vk, layers, start, end).value.rows[i] == Scan(vk, layers[1..], start, end).value.rows[i']
  {
    ScanStep(vk, layers, start, end);
    var kept := LayerSelection(vk, layers[0], start, end);
    i := |kept| + i';
    IndexBehind(Scan(vk, layers, start, end).value.rows, kept, Scan(vk, layers[1..], start, end).value.rows, i');
  }

  lemma IndexBehind(rows: seq<Row>, front: seq<Row>, back: seq<Row>, i: nat)
    requires rows == front + back && i < |back|
    ensures |front| + i < |rows| && rows[|front| + i] == back[i]
  {
  }

  /** Every in-window row of every scanned layer that has `oprettet` is found. */
  lemma ScanComplete(vk: Container, layers: seq<string>, start: int, end: Option<int>, k: nat, fid: nat)
    requires Scan(vk, layers, start, end).Success?
    requires k < |layers| && OprettetColumn in vk[layers[k]].columns
    requires fid < |vk[layers[k]].rows| && InWindow(Get(vk[layers[k]].rows[fid], OprettetColumn), start, end)
    ensures exists i :: (0 <= i < |Scan(vk, layers, start, end).value.rows|
      && Scan(vk, layers, start, end).value.rows[i].origin == Origin(layers[k], fid))
  {
    var i := ScanFind(vk, layers, start, end, k, fid);
  }

  /** `pd.concat(results, ignore_index=True)`: the index becomes 0..n-1. */
  function Renumber(rows: seq<Row>): (r: seq<Row>)
    ensures |r| == |rows|
    ensures forall i :: 0 <= i < |r| ==> r[i] == rows[i].(index := i)
  {
    seq(|rows|, i requires 0 <= i < |rows| => rows[i].(index := i))
  }

  /** `VK.get_objects_by_date(start, end, layer_name)`. */
  function GetObjectsByDate(vk: Container, start: int, end: Option<int>, layerName: Option<string>): (r: Result<Frame>)
    ensures r.Success? <==> forall i :: 0 <= i < |LayersToQuery(layerName)| ==> LayersToQuery(layerName)[i] in vk
    ensures r.Success? ==> forall i :: 0 <= i < |r.value.rows| ==>
      && r.value.rows[i].index == i
      && Fetched(vk, LayersToQuery(layerName), r.value.rows[i], start, end)
      && vk[r.value.rows[i].origin.layer].columns <= r.value.columns
    ensures r.Success? ==> SourceOrdered(r.value.rows)
    ensures r.Success? ==> LayerOrdered(r.value.rows, LayersToQuery(layerName))
    ensures r.Success? && |r.value.rows| > 0 ==> r.value.columns == RowColumns(vk, r.value.rows)
    ensures r.Success? && |r.value.rows| == 0 ==> r.value.columns == vk[LayersToQuery(layerName)[0]].columns
  {
    var layers := LayersToQuery(layerName);
    var scanned :- Scan(vk, layers, start, end);
    ScanSourceOrdered(vk, layers, start, end);
    ScanLayerOrdered(vk, layers, start, end);
    RenumberKeepsOrigins(vk, layers, scanned, start, end);
    if |scanned.rows| > 0 then Success(Frame(scanned.columns, Renumber(scanned.rows)))
    else Success(Frame(vk[layers[0]].columns, []))
  }

  /** Renumbering changes only the index, so every property of the rows that
      rests on their origins and cells carries over. */
  lemma RenumberKeepsOrigins(vk: Container, layers: seq<string>, frame: Frame, start: int, end: Option<int>)
    requires forall i :: 0 <= i < |frame.rows| ==>
      Fetched(vk, layers, frame.rows[i], start, end) && vk[frame.rows[i].origin.layer].columns <= frame.columns
    requires SourceOrdered(frame.rows) && LayerOrdered(frame.rows, layers)
    requires frame.columns == RowColumns(vk, frame.rows)
    ensures forall i :: 0 <= i < |Renumber(frame.rows)| ==>
      && Renumber(frame.rows)[i].index == i
      && Fetched(vk, layers, Renumber(frame.rows)[i], start, end)
      && vk[Renumber(frame.rows)[i].origin.layer].columns <= frame.columns
    ensures SourceOrdered(Renumber(frame.rows)) && LayerOrdered(Renumber(frame.rows), layers)
    ensures frame.columns == RowColumns(vk, Renumber(frame.rows))
  {
    RowColumnsSameOrigins(vk, frame.rows, Renumber(frame.rows));
  }

  /** The query returns every in-window row of every scanned layer that has
      an `oprettet` column. */
  lemma GetObjectsByDateComplete(vk: Container, start: int, end: Option<int>, layerName: Option<string>, k: nat, fid: nat)
    requires GetObjectsByDate(vk, start, end, layerName).Success?
    requires k < |LayersToQuery(layerName)|
    requires OprettetColumn in vk[LayersToQuery(layerName)[k]].columns
    requires fid < |vk[LayersToQuery(layerName)[k]].rows|
    requires InWindow(Get(vk[LayersToQuery(layerName)[k]].rows[fid], OprettetColumn), start, end)
    ensures exists i :: (0 <= i < |GetObjectsByDate(vk, start, end, layerName).value.rows|
      && GetObjectsByDate(vk, start, end, layerName).value.rows[i].origin == Origin(LayersToQuery(layerName)[k], fid))
  {
    var layers := LayersToQuery(layerName);
    ScanComplete(vk, layers, start, end, k, fid);
    var i :| 0 <= i < |Scan(vk, layers, start, end).value.rows|
      && Scan(vk, layers, start, end).value.rows[i].origin == Origin(layers[k], fid);
    assert GetObjectsByDate(vk, start, end, layerName).value.rows[i].origin == Origin(layers[k], fid);
  }

  /** The outcome of `update_objekt_id`: the returned flag and the store after it. */
  datatype Patch = Patch(ok: bool, store: Container)

  /** `VK.update_objekt_id(layer_name, fid, new_objekt_id)`: reads the layer,
      sets `objekt_id` of row `fid` and rewrites the whole layer. An unknown
      layer (the read raises) or an `fid` outside the layer's index gives
      `False` and writes nothing; no exception leaves the call. */
  function UpdateObjektId(vk: Container, layerName: string, fid: int, newObjektId: string): (r: Patch)
    ensures r.ok <==> layerName in vk && 0 <= fid < |vk[layerName].rows|
    ensures !r.ok ==> r.store == vk
    ensures r.store.Keys == vk.Keys
    ensures forall name :: name in vk && name != layerName ==> r.store[name] == vk[name]
    ensures forall name :: name in vk ==> |r.store[name].rows| == |vk[name].rows|
    ensures r.ok ==> r.store[layerName].columns == vk[layerName].columns + {ObjektIdColumn}
    ensures r.ok ==> forall j :: 0 <= j < |vk[layerName].rows| && j != fid ==>
      r.store[layerName].rows[j] == vk[layerName].rows[j]
    ensures r.ok ==> Get(r.store[layerName].rows[fid], ObjektIdColumn) == Str(newObjektId)
    ensures r.ok ==> forall c :: c != ObjektIdColumn ==>
      Get(r.store[layerName].rows[fid], c) == Get(vk[layerName].rows[fid], c)
  {
    if layerName !in vk then Patch(false, vk)
    else
      var layer := vk[layerName];
      if !(0 <= fid < |layer.rows|) then Patch(false, vk)
      else
        var row := layer.rows[fid][ObjektIdColumn := Str(newObjektId)];
        Patch(true, vk[layerName := Layer(layer.columns + {ObjektIdColumn}, layer.rows[fid := row])])
  }
}
