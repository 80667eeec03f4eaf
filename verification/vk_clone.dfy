/** The VK clone (`GeodatabaseCloner`): copies the feature classes that a
    list of schema files name from a File Geodatabase into a freshly built
    GeoPackage. */
module VkClone {
  import opened Wrappers
  import opened Tables
  import Text

  /** A schema file as `_clone_layer` meets it: absent (the loop skips it),
      present but not a JSON object with a text `name` (bad JSON, no `name`,
      a `name` that is not text), or naming a feature class. */
  datatype SchemaFile = Missing | Unreadable | Named(name: string)

  /** `schema["name"].split(".")[-1]`: the feature class name without its
      owner or database qualifiers. */
  function TableName(name: string): string {
    Text.LastSegment(name, '.')
  }

  /** The feature class name holds no dot and is the tail of the qualified
      name after its last dot (the whole name when it has none). */
  lemma TableNameShape(name: string)
    ensures '.' !in TableName(name)
    ensures |TableName(name)| <= |name|
    ensures TableName(name) == name[|name| - |TableName(name)|..]
    ensures |TableName(name)| < |name| ==> name[|name| - |TableName(name)| - 1] == '.'
  {
    Text.LastSegmentShape(name, '.');
  }

  /** A qualified name maps to its last part, whatever qualifies it. */
  lemma TableNameOfQualified(qualifier: string, table: string)
    requires '.' !in table
    ensures TableName(qualifier + "." + table) == table
  {
    Text.LastSegmentOfJoin(qualifier, '.', table);
  }

  /** A name without a dot maps to itself. */
  lemma TableNameUndotted(name: string)
    requires '.' !in name
    ensures TableName(name) == name
  {
    Text.LastSegmentAbsent(name, '.');
  }

  /** What one pass of the loop does with one schema file. */
  datatype LayerOutcome =
    | Skipped              // the file does not exist
    | Copied(write: LayerWrite)
    | Caught               // the read failed after `table_name` was bound
    | Escaped              // the handler itself fails on the unbound `table_name`

  /** `os.path.exists(schema_file)` followed by `_clone_layer(schema_file)`:
      a feature class the geodatabase lacks makes `read_file` raise, which the
      handler catches; an unreadable schema raises before `table_name` is
      bound, so the handler's own message raises and the error leaves the
      run. */
  function CloneOne(gdb: Container, schema: SchemaFile): (r: LayerOutcome)
    ensures r.Skipped? <==> schema.Missing?
    ensures r.Escaped? <==> schema.Unreadable?
    ensures r.Caught? <==> schema.Named? && TableName(schema.name) !in gdb
    ensures r.Copied? ==> (schema.Named?
      && r.write == LayerWrite(TableName(schema.name), gdb[TableName(schema.name)]))
  {
    match schema
    case Missing => Skipped
    case Unreadable => Escaped
    case Named(name) =>
      var table := TableName(name);
      if table in gdb then Copied(LayerWrite(table, gdb[table])) else Caught
  }

  /** The layer writes of the loop, in order, and whether an error left it. */
  datatype Plan = Plan(writes: seq<LayerWrite>, raised: bool)

  /** No schema before position `i` is unreadable: the loop reaches file `i`. */
  predicate Reached(schemas: seq<SchemaFile>, i: int) {
    forall j :: 0 <= j < i && j < |schemas| ==> !schemas[j].Unreadable?
  }

  /** The loop over the schema files from the first on. */
  function ClonePlan(gdb: Container, schemas: seq<SchemaFile>): (p: Plan)
    ensures |p.writes| <= |schemas|
  {
    if |schemas| == 0 then Plan([], false)
    else
      match CloneOne(gdb, schemas[0])
      case Escaped => Plan([], true)
      case Copied(w) =>
        var rest := ClonePlan(gdb, schemas[1..]);
        Plan([w] + rest.writes, rest.raised)
      case _ =>
        ClonePlan(gdb, schemas[1..])
  }

  /** The loop raises exactly when some schema file is unreadable. */
  lemma {:induction false} ClonePlanRaises(gdb: Container, schemas: seq<SchemaFile>)
    ensures ClonePlan(gdb, schemas).raised <==> exists i :: 0 <= i < |schemas| && schemas[i].Unreadable?
  {
    if |schemas| > 0 && !schemas[0].Unreadable? {
      var tail := schemas[1..];
      assert ClonePlan(gdb, schemas).raised == ClonePlan(gdb, tail).raised;
      ClonePlanRaises(gdb, tail);
      if exists i :: 0 <= i < |schemas| && schemas[i].Unreadable? {
        var i :| 0 <= i < |schemas| && schemas[i].Unreadable?;
        assert tail[i - 1] == schemas[i];
      }
      if exists i :: 0 <= i < |tail| && tail[i].Unreadable? {
        var i :| 0 <= i < |tail| && tail[i].Unreadable?;
        assert schemas[i + 1] == tail[i];
      }
    }
  }

  /** The writes one readable schema file contributes. */
  function HeadWrites(gdb: Container, schema: SchemaFile): seq<LayerWrite> {
    match CloneOne(gdb, schema)
    case Copied(w) => [w]
    case _ => []
  }

  /** A readable first schema file contributes its writes ahead of the rest. */
  lemma ClonePlanStep(gdb: Container, schemas: seq<SchemaFile>)
    requires |schemas| > 0 && !schemas[0].Unreadable?
    ensures ClonePlan(gdb, schemas).writes == HeadWrites(gdb, schemas[0]) + ClonePlan(gdb, schemas[1..]).writes
  {
  }

  /** Reaching file `i + 1` means reaching file `i` of the tail. */
  lemma ReachedTail(schemas: seq<SchemaFile>, i: nat)
    requires 0 < |schemas| && Reached(schemas, i + 1)
    ensures Reached(schemas[1..], i)
  {
    forall j | 0 <= j < i && j < |schemas| - 1 ensures !schemas[1..][j].Unreadable? {
      assert schemas[1..][j] == schemas[j + 1];
    }
  }

  /** Reaching file `i` of the tail past a readable head means reaching file
      `i + 1`. */
  lemma ReachedCons(schemas: seq<SchemaFile>, i: nat)
    requires 0 < |schemas| && !schemas[0].Unreadable? && Reached(schemas[1..], i)
    ensures Reached(schemas, i + 1)
  {
    forall j | 0 <= j < i + 1 && j < |schemas| ensures !schemas[j].Unreadable? {
      if j > 0 {
        assert schemas[j] == schemas[1..][j - 1];
      }
    }
  }

  /** The position at which a reached schema's feature class is written. */
  lemma {:induction false} WriteIndexOf(gdb: Container, schemas: seq<SchemaFile>, i: nat) returns (k: nat)
    requires i < |schemas| && Reached(schemas, i)
    requires schemas[i].Named? && TableName(schemas[i].name) in gdb
    ensures k < |ClonePlan(gdb, schemas).writes|
    ensures ClonePlan(gdb, schemas).writes[k].name == TableName(schemas[i].name)
  {
    ClonePlanStep(gdb, schemas);
    if i == 0 {
      k := 0;
      FirstWrite(HeadWrites(gdb, schemas[0]), ClonePlan(gdb, schemas[1..]).writes);
    } else {
      var tail := schemas[1..];
      ReachedTail(schemas, i - 1);
      assert tail[i - 1] == schemas[i];
      var k' := WriteIndexOf(gdb, tail, i - 1);
      k := |HeadWrites(gdb, schemas[0])| + k';
      LaterWrite(HeadWrites(gdb, schemas[0]), ClonePlan(gdb, tail).writes, k');
    }
  }

  lemma FirstWrite(head: seq<LayerWrite>, rest: seq<LayerWrite>)
    requires |head| > 0
    ensures (head + rest)[0] == head[0]
  {
  }

  lemma LaterWrite(head: seq<LayerWrite>, rest: seq<LayerWrite>, k: nat)
    requires k < |rest|
    ensures (head + rest)[|head| + k] == rest[k]
  {
  }

  /** Every write copies a feature class of the geodatabase verbatim. */
  lemma {:induction false} ClonePlanVerbatim(gdb: Container, schemas: seq<SchemaFile>, k: nat)
    requires k < |ClonePlan(gdb, schemas).writes|
    ensures ClonePlan(gdb, schemas).writes[k].name in gdb
    ensures ClonePlan(gdb, schemas).writes[k].layer == gdb[ClonePlan(gdb, schemas).writes[k].name]
  {
    var head := HeadWrites(gdb, schemas[0]);
    var rest := ClonePlan(gdb, schemas[1..]).writes;
    ClonePlanStep(gdb, schemas);
    if k < |head| {
      FirstWrite(head, rest);
    } else {
      LaterWrite(head, rest, k - |head|);
      ClonePlanVerbatim(gdb, schemas[1..], k - |head|);
    }
  }

  /** Every feature class a reached schema names, and the geodatabase holds,
      is written. */
  lemma ClonePlanWritesEach(gdb: Container, schemas: seq<SchemaFile>, i: nat)
    requires i < |schemas| && Reached(schemas, i)
    requires schemas[i].Named? && TableName(schemas[i].name) in gdb
    ensures exists k :: (0 <= k < |ClonePlan(gdb, schemas).writes|
      && ClonePlan(gdb, schemas).writes[k].name == TableName(schemas[i].name))
  {
    var k := WriteIndexOf(gdb, schemas, i);
  }

  /** Every write stems from a reached schema naming that feature class. */
  lemma {:induction false} ClonePlanWritesOnlyNamed(gdb: Container, schemas: seq<SchemaFile>, k: nat)
    requires k < |ClonePlan(gdb, schemas).writes|
    ensures exists i :: (0 <= i < |schemas| && Reached(schemas, i)
      && schemas[i].Named? && TableName(schemas[i].name) == ClonePlan(gdb, schemas).writes[k].name)
  {
    assert |schemas| > 0 && !schemas[0].Unreadable?;
    var head := HeadWrites(gdb, schemas[0]);
    var rest := ClonePlan(gdb, schemas[1..]).writes;
    ClonePlanStep(gdb, schemas);
    if k < |head| {
      assert (head + rest)[k] == head[0];
      assert Reached(schemas, 0);
    } else {
      assert (head + rest)[k] == rest[k - |head|];
      ClonePlanWritesOnlyNamed(gdb, schemas[1..], k - |head|);
      var i :| 0 <= i < |schemas[1..]| && Reached(schemas[1..], i)
        && schemas[1..][i].Named? && TableName(schemas[1..][i].name) == rest[k - |head|].name;
      assert schemas[1..][i] == schemas[i + 1];
      ReachedCons(schemas, i);
    }
  }

  /** A schema file that does not exist changes nothing. */
  lemma {:induction false} ClonePlanSkipsMissing(gdb: Container, before: seq<SchemaFile>, after: seq<SchemaFile>)
    ensures ClonePlan(gdb, before + [Missing] + after) == ClonePlan(gdb, before + after)
  {
    if |before| == 0 {
      assert before + [Missing] + after == [Missing] + after;
      assert ([Missing] + after)[1..] == after;
      assert before + after == after;
    } else {
      assert (before + [Missing] + after)[1..] == before[1..] + [Missing] + after;
      assert (before + after)[1..] == before[1..] + after;
      assert (before + [Missing] + after)[0] == before[0] == (before + after)[0];
      ClonePlanSkipsMissing(gdb, before[1..], after);
    }
  }

  /** Nothing after an unreadable schema file is processed. */
  lemma {:induction false} ClonePlanStopsAtEscape(gdb: Container, before: seq<SchemaFile>, after: seq<SchemaFile>)
    ensures ClonePlan(gdb, before + [Unreadable] + after).writes == ClonePlan(gdb, before).writes
    ensures ClonePlan(gdb, before + [Unreadable] + after).raised
  {
    var all := before + [Unreadable] + after;
    assert all[|before|].Unreadable?;
    if |before| == 0 {
      assert all[0] == Unreadable;
    } else {
      assert all[1..] == before[1..] + [Unreadable] + after;
      assert all[0] == before[0];
      ClonePlanStopsAtEscape(gdb, before[1..], after);
    }
  }

  /** The output file after a run and whether the run raised. */
  datatype CloneRun = CloneRun(output: Option<Container>, raised: bool)

  /** `GeodatabaseCloner.run_clone()`: with no geodatabase at `gdb_path` it
      returns and the output file (`prior`, `None` when absent) stays as it
      was; otherwise the output is removed and rebuilt from the writes alone,
      every layer in it a verbatim copy of the geodatabase's feature class. */
  function RunClone(gdb: Option<Container>, prior: Option<Container>, schemas: seq<SchemaFile>): (r: CloneRun)
    ensures gdb.None? ==> r == CloneRun(prior, false)
    ensures gdb.Some? ==> (r.raised <==> exists i :: 0 <= i < |schemas| && schemas[i].Unreadable?)
    ensures gdb.Some? ==> forall k :: k in LayersOf(r.output) ==>
      k in gdb.value && LayersOf(r.output)[k] == gdb.value[k]
  {
    if gdb.None? then CloneRun(prior, false)
    else
      var plan := ClonePlan(gdb.value, schemas);
      var output := ApplyWrites(None, plan.writes);
      ClonePlanRaises(gdb.value, schemas);
      forall k | k in LayersOf(output) ensures k in gdb.value && LayersOf(output)[k] == gdb.value[k] {
        ApplyWritesFromSomeWrite(plan.writes, k);
        var j :| 0 <= j < |plan.writes| && plan.writes[j].name == k && LayersOf(output)[k] == plan.writes[j].layer;
        ClonePlanVerbatim(gdb.value, schemas, j);
      }
      CloneRun(output, plan.raised)
  }

  /** The output holds exactly the feature classes that a reached schema
      names and the geodatabase holds. */
  lemma RunCloneLayers(gdb: Container, prior: Option<Container>, schemas: seq<SchemaFile>, k: string)
    ensures k in LayersOf(RunClone(Some(gdb), prior, schemas).output)
      <==> k in gdb && exists i :: (0 <= i < |schemas| && Reached(schemas, i)
             && schemas[i].Named? && TableName(schemas[i].name) == k)
  {
    var plan := ClonePlan(gdb, schemas);
    ApplyWritesKeys(None, plan.writes, k);
    if exists j :: 0 <= j < |plan.writes| && plan.writes[j].name == k {
      var j :| 0 <= j < |plan.writes| && plan.writes[j].name == k;
      ClonePlanWritesOnlyNamed(gdb, schemas, j);
    }
    if k in gdb && exists i :: (0 <= i < |schemas| && Reached(schemas, i)
         && schemas[i].Named? && TableName(schemas[i].name) == k) {
      var i :| 0 <= i < |schemas| && Reached(schemas, i) && schemas[i].Named? && TableName(schemas[i].name) == k;
      ClonePlanWritesEach(gdb, schemas, i);
    }
  }

  /** The clone is a full rebuild: when the geodatabase exists, whatever the
      output held before makes no difference, so a second run reproduces the
      first. */
  lemma RunCloneRebuilds(gdb: Container, prior1: Option<Container>, prior2: Option<Container>, schemas: seq<SchemaFile>)
    ensures RunClone(Some(gdb), prior1, schemas) == RunClone(Some(gdb), prior2, schemas)
    ensures RunClone(Some(gdb), RunClone(Some(gdb), prior1, schemas).output, schemas)
      == RunClone(Some(gdb), prior1, schemas)
  {
  }
}
