/** The GeoFA clone (`clone_geofa_database`): rebuilds one GeoPackage from
    the per-theme GeoPackages, one destination layer per source file. */
module GeofaClone {
  import opened Wrappers
  import opened Tables
  import Text

  const DefaultOutput := "geofa.gpkg"
  const Extension := ".gpkg"

  /** The output path actually used: a missing or empty path (falsy in
      Python) gives the default. */
  function OutputFile(outputPath: Option<string>): (r: string)
    ensures r != ""
    ensures outputPath.Some? && outputPath.value != "" ==> r == outputPath.value
    ensures outputPath.None? || outputPath.value == "" ==> r == DefaultOutput
  {
    if outputPath.Some? && outputPath.value != "" then outputPath.value else DefaultOutput
  }

  /** `os.path.basename(path).replace(".gpkg", "")`, where `sep` is the
      platform's path separator: the last path segment with every occurrence
      of `.gpkg` removed. */
  function DestinationName(path: string, sep: char): string {
    Text.RemoveAll(Text.LastSegment(path, sep), Extension)
  }

  /** `<dir><sep><stem>.gpkg` for a stem without a dot or separator names
      layer `<stem>`. */
  lemma DestinationNameOfPath(dir: string, stem: string, sep: char)
    requires sep !in stem + Extension && '.' !in stem
    ensures DestinationName(dir + [sep] + stem + Extension, sep) == stem
  {
    assert dir + [sep] + stem + Extension == dir + [sep] + (stem + Extension);
    Text.LastSegmentOfJoin(dir, sep, stem + Extension);
    Text.RemoveAllKeepsHead(stem, Extension, Extension);
    Text.RemoveAllDropsHead([], Extension);
    assert Extension + [] == Extension;
    assert stem + [] == stem;
  }

  /** A path without the separator is a bare file name: `<stem>.gpkg`
      names layer `<stem>`. */
  lemma DestinationNameWithoutSeparator(stem: string, sep: char)
    requires sep !in stem + Extension && '.' !in stem
    ensures DestinationName(stem + Extension, sep) == stem
  {
    Text.LastSegmentAbsent(stem + Extension, sep);
    Text.RemoveAllKeepsHead(stem, Extension, Extension);
    Text.RemoveAllDropsHead([], Extension);
    assert Extension + [] == Extension;
    assert stem + [] == stem;
  }

  /** Not only a trailing `.gpkg` goes: every occurrence is removed. */
  lemma DestinationNameRemovesEvery(a: string, b: string, sep: char)
    requires '.' !in a && '.' !in b
    requires sep !in a + Extension + b + Extension
    ensures DestinationName(a + Extension + b + Extension, sep) == a + b
  {
    var s := a + Extension + b + Extension;
    Text.LastSegmentAbsent(s, sep);
    assert s == a + (Extension + (b + Extension));
    Text.RemoveAllKeepsHead(a, Extension + (b + Extension), Extension);
    Text.RemoveAllDropsHead(b + Extension, Extension);
    Text.RemoveAllKeepsHead(b, Extension, Extension);
    Text.RemoveAllDropsHead([], Extension);
    assert Extension + [] == Extension;
    assert b + [] == b;
  }

  /** A copy named `a.gpkg_copy.gpkg` lands in layer `a_copy`. */
  lemma CopyNameLosesInnerExtension(sep: char)
    requires sep !in "a.gpkg_copy.gpkg"
    ensures DestinationName("a.gpkg_copy.gpkg", sep) == "a_copy"
  {
    assert "a.gpkg_copy.gpkg" == "a" + Extension + "_copy" + Extension;
    DestinationNameRemovesEvery("a", "_copy", sep);
  }

  /** The stems of the three theme files the clone reads. */
  const ThemeStems: set<string> := {"5800_fac_pkt", "5801_fac_fl", "5802_fac_li"}

  /** The theme files, in any directory written with backslashes: with the
      Windows separator each names its theme layer. */
  lemma ThemeFileNames(dir: string, stem: string)
    requires stem in ThemeStems
    ensures DestinationName(dir + "\\" + stem + Extension, '\\') == stem
  {
    assert '.' !in stem && '\\' !in stem + Extension;
    assert dir + "\\" + stem + Extension == dir + ['\\'] + stem + Extension;
    DestinationNameOfPath(dir, stem, '\\');
  }

  /** With `/` as the only separator (POSIX) a backslash separates nothing:
      the directory stays in the name. */
  lemma PosixKeepsDirectory()
    ensures DestinationName("data\\5800_fac_pkt.gpkg", '/') == "data\\5800_fac_pkt"
  {
    assert "data\\5800_fac_pkt.gpkg" == "data\\5800_fac_pkt" + Extension;
    DestinationNameWithoutSeparator("data\\5800_fac_pkt", '/');
  }

  /** A source GeoPackage: its path and, when it can be opened, its layers
      in the order `fiona.listlayers` gives them. */
  datatype SourceFile = SourceFile(path: string, layers: Option<seq<Layer>>)

  /** Reading every layer of one file and writing each under the file's
      destination name. */
  function FileWrites(f: SourceFile, sep: char): (ws: seq<LayerWrite>)
    requires f.layers.Some?
    ensures |ws| == |f.layers.value|
    ensures forall i :: 0 <= i < |ws| ==> ws[i].name == DestinationName(f.path, sep) && ws[i].layer == f.layers.value[i]
  {
    seq(|f.layers.value|, i requires 0 <= i < |f.layers.value| => LayerWrite(DestinationName(f.path, sep), f.layers.value[i]))
  }

  /** The layer writes of the loop and whether it raised. */
  datatype Plan = Plan(writes: seq<LayerWrite>, raised: bool)

  /** No source file before position `i` fails to open: the loop reaches file `i`. */
  predicate Reached(files: seq<SourceFile>, i: int) {
    forall j :: 0 <= j < i && j < |files| ==> files[j].layers.Some?
  }

  /** The loop over the source files: `fiona.listlayers` on a file that
      cannot be opened raises, nothing catches it, and the loop ends there. */
  function ClonePlan(files: seq<SourceFile>, sep: char): Plan {
    if |files| == 0 then Plan([], false)
    else if files[0].layers.None? then Plan([], true)
    else
      var rest := ClonePlan(files[1..], sep);
      Plan(FileWrites(files[0], sep) + rest.writes, rest.raised)
  }

  /** The loop raises exactly when some source file cannot be opened. */
  lemma {:induction false} ClonePlanRaises(files: seq<SourceFile>, sep: char)
    ensures ClonePlan(files, sep).raised <==> exists i :: 0 <= i < |files| && files[i].layers.None?
  {
    if |files| > 0 && files[0].layers.Some? {
      ClonePlanRaises(files[1..], sep);
      if exists i :: 0 <= i < |files| && files[i].layers.None? {
        var i :| 0 <= i < |files| && files[i].layers.None?;
        assert files[1..][i - 1] == files[i];
      }
    }
  }

  /** Every write stems from a reached file and carries its destination name
      and one of its layers. */
  lemma {:induction false} ClonePlanWriteSource(files: seq<SourceFile>, sep: char, k: nat)
    requires k < |ClonePlan(files, sep).writes|
    ensures exists i, t :: (0 <= i < |files| && Reached(files, i) && files[i].layers.Some?
      && 0 <= t < |files[i].layers.value|
      && ClonePlan(files, sep).writes[k] == LayerWrite(DestinationName(files[i].path, sep), files[i].layers.value[t]))
  {
    var head := FileWrites(files[0], sep);
    var rest := ClonePlan(files[1..], sep);
    assert Reached(files, 0);
    if k < |head| {
      assert ClonePlan(files, sep).writes[k] == head[k];
    } else {
      assert ClonePlan(files, sep).writes[k] == rest.writes[k - |head|];
      ClonePlanWriteSource(files[1..], sep, k - |head|);
      var i, t :| 0 <= i < |files[1..]| && Reached(files[1..], i) && files[1..][i].layers.Some?
        && 0 <= t < |files[1..][i].layers.value|
        && rest.writes[k - |head|] == LayerWrite(DestinationName(files[1..][i].path, sep), files[1..][i].layers.value[t]);
      assert files[1..][i] == files[i + 1];
      assert Reached(files, i + 1) by {
        forall j | 0 <= j < i + 1 && j < |files| ensures files[j].layers.Some? {
          if j > 0 {
            assert files[j] == files[1..][j - 1];
          }
        }
      }
    }
  }

  lemma ConcatAssoc(a: seq<LayerWrite>, b: seq<LayerWrite>, c: seq<LayerWrite>)
    ensures a + (b + c) == (a + b) + c
  {
  }

  /** An opened first file contributes its writes ahead of the rest. */
  lemma ClonePlanCons(files: seq<SourceFile>, sep: char)
    requires |files| > 0 && files[0].layers.Some?
    ensures ClonePlan(files, sep).writes == FileWrites(files[0], sep) + ClonePlan(files[1..], sep).writes
  {
  }

  /** The writes of a prefix of opened files come first. */
  lemma {:induction false} ClonePlanSplit(files: seq<SourceFile>, sep: char, i: nat)
    requires i <= |files| && Reached(files, i)
    ensures ClonePlan(files, sep).writes == ClonePlan(files[..i], sep).writes + ClonePlan(files[i..], sep).writes
  {
    if i == 0 {
      assert files[..0] == [] && files[0..] == files;
    } else {
      var tail := files[1..];
      assert Reached(tail, i - 1);
      ClonePlanSplit(tail, sep, i - 1);
      assert tail[..i - 1] == files[..i][1..];
      assert tail[i - 1..] == files[i..];
      ClonePlanCons(files, sep);
      ClonePlanCons(files[..i], sep);
      assert files[..i][0] == files[0];
      ConcatAssoc(FileWrites(files[0], sep), ClonePlan(files[..i][1..], sep).writes, ClonePlan(files[i..], sep).writes);
    }
  }

  /** The GeoPackage written and whether the call raised. */
  datatype GeofaCloneRun = GeofaCloneRun(outputFile: string, output: Option<Container>, raised: bool)

  /** `clone_geofa_database(output_path)`: the existing output file is
      removed first, so its earlier content is not an input; the file then
      holds exactly what the writes produce. */
  function CloneGeofaDatabase(files: seq<SourceFile>, outputPath: Option<string>, sep: char): (r: GeofaCloneRun)
    ensures r.outputFile == (if outputPath.Some? && outputPath.value != "" then outputPath.value else DefaultOutput)
    ensures r.raised <==> exists i :: 0 <= i < |files| && files[i].layers.None?
    ensures forall k :: k in LayersOf(r.output) ==>
      exists i, t :: (0 <= i < |files| && Reached(files, i) && files[i].layers.Some?
        && 0 <= t < |files[i].layers.value|
        && k == DestinationName(files[i].path, sep) && LayersOf(r.output)[k] == files[i].layers.value[t])
  {
    var plan := ClonePlan(files, sep);
    var output := ApplyWrites(None, plan.writes);
    ClonePlanRaises(files, sep);
    forall k | k in LayersOf(output)
      ensures exists i, t :: (0 <= i < |files| && Reached(files, i) && files[i].layers.Some?
        && 0 <= t < |files[i].layers.value|
        && k == DestinationName(files[i].path, sep) && LayersOf(output)[k] == files[i].layers.value[t])
    {
      ApplyWritesFromSomeWrite(plan.writes, k);
      var w :| 0 <= w < |plan.writes| && plan.writes[w].name == k && LayersOf(output)[k] == plan.writes[w].layer;
      ClonePlanWriteSource(files, sep, w);
    }
    GeofaCloneRun(OutputFile(outputPath), output, plan.raised)
  }

  /** The output holds a layer exactly for each destination name of a
      reached file that lists at least one layer. */
  lemma CloneGeofaLayers(files: seq<SourceFile>, outputPath: Option<string>, sep: char, k: string)
    ensures k in LayersOf(CloneGeofaDatabase(files, outputPath, sep).output)
      <==> exists i :: (0 <= i < |files| && Reached(files, i) && files[i].layers.Some?
             && |files[i].layers.value| > 0 && DestinationName(files[i].path, sep) == k)
  {
    var plan := ClonePlan(files, sep);
    ApplyWritesKeys(None, plan.writes, k);
    if exists w :: 0 <= w < |plan.writes| && plan.writes[w].name == k {
      var w :| 0 <= w < |plan.writes| && plan.writes[w].name == k;
      ClonePlanWriteSource(files, sep, w);
    }
    if exists i :: (0 <= i < |files| && Reached(files, i) && files[i].layers.Some?
         && |files[i].layers.value| > 0 && DestinationName(files[i].path, sep) == k) {
      var i :| 0 <= i < |files| && Reached(files, i) && files[i].layers.Some?
        && |files[i].layers.value| > 0 && DestinationName(files[i].path, sep) == k;
      ClonePlanSplit(files, sep, i);
      var before := ClonePlan(files[..i], sep).writes;
      assert files[i..][0] == files[i];
      assert plan.writes[|before|] == FileWrites(files[i], sep)[0];
    }
  }

  /** Files whose names differ from `name` write nothing under it. */
  lemma WritesNamedOtherwise(files: seq<SourceFile>, sep: char, name: string)
    requires forall j :: 0 <= j < |files| ==> DestinationName(files[j].path, sep) != name
    ensures forall w :: 0 <= w < |ClonePlan(files, sep).writes| ==> ClonePlan(files, sep).writes[w].name != name
  {
    forall w | 0 <= w < |ClonePlan(files, sep).writes| ensures ClonePlan(files, sep).writes[w].name != name {
      ClonePlanWriteSource(files, sep, w);
    }
  }

  /** The writes of a reached, opened file sit between those of the files
      before it and those of the files after it. */
  lemma ClonePlanAround(files: seq<SourceFile>, sep: char, i: nat)
    requires i < |files| && Reached(files, i) && files[i].layers.Some?
    ensures ClonePlan(files, sep).writes
      == (ClonePlan(files[..i], sep).writes + FileWrites(files[i], sep)) + ClonePlan(files[i + 1..], sep).writes
  {
    ClonePlanSplit(files, sep, i);
    assert files[i..][0] == files[i] && files[i..][1..] == files[i + 1..];
  }

  /** The position of a file's last write: nothing after it writes to the
      same name when no later file shares that name. */
  lemma LastWriteOfFile(files: seq<SourceFile>, sep: char, i: nat) returns (j: nat)
    requires i < |files| && Reached(files, i) && files[i].layers.Some? && |files[i].layers.value| > 0
    requires forall f :: i < f < |files| ==> DestinationName(files[f].path, sep) != DestinationName(files[i].path, sep)
    ensures j < |ClonePlan(files, sep).writes|
    ensures ClonePlan(files, sep).writes[j]
      == LayerWrite(DestinationName(files[i].path, sep), files[i].layers.value[|files[i].layers.value| - 1])
    ensures forall w :: j < w < |ClonePlan(files, sep).writes| ==>
      ClonePlan(files, sep).writes[w].name != DestinationName(files[i].path, sep)
  {
    var name := DestinationName(files[i].path, sep);
    var later := files[i + 1..];
    assert forall f :: 0 <= f < |later| ==> DestinationName(later[f].path, sep) != name by {
      forall f | 0 <= f < |later| ensures DestinationName(later[f].path, sep) != name {
        assert later[f] == files[i + 1 + f];
      }
    }
    WritesNamedOtherwise(later, sep, name);
    ClonePlanAround(files, sep, i);
    var pre: seq<LayerWrite> := ClonePlan(files[..i], sep).writes + FileWrites(files[i], sep);
    NoneAfter(pre, ClonePlan(later, sep).writes, name);
    j := |pre| - 1;
  }

  /** Writes appended after `pre` that avoid `name` leave `pre`'s writes to
      it the last ones. */
  lemma NoneAfter(pre: seq<LayerWrite>, after: seq<LayerWrite>, name: string)
    requires forall k :: 0 <= k < |after| ==> after[k].name != name
    ensures forall w :: |pre| <= w < |pre + after| ==> (pre + after)[w].name != name
  {
    forall w | |pre| <= w < |pre + after| ensures (pre + after)[w].name != name {
      assert (pre + after)[w] == after[w - |pre|];
    }
  }

  /** When no later file shares its destination name, a file's last listed
      layer is what the output holds under that name: the earlier layers of
      the file are overwritten. */
  lemma LastLayerWins(files: seq<SourceFile>, outputPath: Option<string>, sep: char, i: nat)
    requires i < |files| && Reached(files, i) && files[i].layers.Some? && |files[i].layers.value| > 0
    requires forall j :: i < j < |files| ==> DestinationName(files[j].path, sep) != DestinationName(files[i].path, sep)
    ensures DestinationName(files[i].path, sep) in LayersOf(CloneGeofaDatabase(files, outputPath, sep).output)
    ensures LayersOf(CloneGeofaDatabase(files, outputPath, sep).output)[DestinationName(files[i].path, sep)]
      == files[i].layers.value[|files[i].layers.value| - 1]
  {
    var j := LastWriteOfFile(files, sep, i);
    ApplyWritesLastWins(None, ClonePlan(files, sep).writes, j);
  }
}
