/** The apply loop of `update_bigquery_metadata`
    (update_bigquery_descriptions.py, lines 99-170): for every target
    dataset and every table the catalog lists in it, the table's
    description and schema are recomputed from the two extracted maps and
    written back in one update call whose failure is contained to that
    table. The warehouse catalog is a `Catalog` object: its listing, its
    table metadata, and which update calls the service refuses. */
module Reconciler {
  import opened Wrappers
  import opened Text
  import opened Sheet
  import opened Schema

  /** A table of the catalog, addressed by dataset and table id. */
  datatype TableRef = TableRef(dataset: string, table: string)

  /** The two attributes the script updates: the table description (`None`
      when the catalog has none) and the ordered field list. */
  datatype TableMeta = TableMeta(description: Option<string>, schema: seq<SchemaField>)

  /** One update attempt: the table, the `updated_count` reported for it
      and whether `update_table` succeeded. */
  datatype Attempt = Attempt(ref: TableRef, changed: nat, ok: bool)

  /** Why a run stops early: the table-list extraction raised on a key, or
      a target dataset cannot be listed. */
  datatype RunError = Unpack(key: string) | DatasetNotFound(dataset: string)

  /** `TARGET_DATASETS.split(",")`: pieces are taken verbatim, so spaces
      around commas stay part of the dataset names. */
  function TargetDatasets(raw: string): (targets: seq<string>)
    ensures |targets| >= 1
    ensures forall i :: 0 <= i < |targets| ==> ',' !in targets[i]
    ensures Join(targets, ',') == raw
  {
    JoinSplit(raw, ',');
    Split(raw, ',')
  }

  // ---------------------------------------------------------------------
  // Per-table recomputation
  // ---------------------------------------------------------------------

  /** The new table description (lines 133-135): the sheet description,
      followed by ` (狀態: <status>)` when the status is non-empty. */
  function MergedDescription(fact: TableFact): (d: string)
    ensures fact.description <= d
    ensures d == fact.description <==> fact.status == ""
    ensures fact.status != "" ==> d[|fact.description|..] == " (狀態: " + fact.status + ")"
  {
    fact.description + (if fact.status != "" then " (狀態: " + fact.status + ")" else "")
  }

  /** `table_descriptions.get(table_id, {})`. */
  function Lookup(tableDescs: map<string, TableFact>, t: string): Option<TableFact>
  {
    if t in tableDescs then Some(tableDescs[t]) else None
  }

  /** The state the script writes for table `t` whose current state is
      `meta`: the merged description when the sheet has a non-empty one
      (otherwise the current description), and the overlaid schema when the
      sheet has columns for `t` (otherwise the current schema). */
  function Reconcile(t: string, meta: TableMeta, tableDescs: map<string, TableFact>,
                     columnDescs: map<string, map<string, string>>): (r: TableMeta)
    ensures |r.schema| == |meta.schema|
    ensures forall i :: 0 <= i < |r.schema| ==>
      && r.schema[i].name == meta.schema[i].name
      && r.schema[i].fieldType == meta.schema[i].fieldType
      && r.schema[i].mode == meta.schema[i].mode
      && r.schema[i].fields == meta.schema[i].fields
  {
    var info := Lookup(tableDescs, t);
    TableMeta(
      if info.Some? && info.value.description != "" then Some(MergedDescription(info.value)) else meta.description,
      if t in columnDescs then Overlay(meta.schema, columnDescs[t]) else meta.schema)
  }

  /** The `updated_count` reported for table `t` in state `meta` (zero when
      the sheet has no columns for it). */
  function Changes(t: string, meta: TableMeta, columnDescs: map<string, map<string, string>>): (n: nat)
    ensures n <= |meta.schema|
  {
    if t in columnDescs then ChangedCount(meta.schema, columnDescs[t]) else 0
  }

  /** The description is replaced only by a non-empty sheet description;
      otherwise the fetched one is kept. */
  lemma ReconcileDescription(t: string, meta: TableMeta, tableDescs: map<string, TableFact>,
                             columnDescs: map<string, map<string, string>>)
    ensures Reconcile(t, meta, tableDescs, columnDescs).description != meta.description ==>
      t in tableDescs && tableDescs[t].description != ""
    ensures t in tableDescs && tableDescs[t].description != "" ==>
      Reconcile(t, meta, tableDescs, columnDescs).description.Some? &&
      tableDescs[t].description <= Reconcile(t, meta, tableDescs, columnDescs).description.value
  {
  }

  /** A table without sheet columns keeps its schema, exactly as if it had
      an empty column map. */
  lemma ReconcileWithoutColumns(t: string, meta: TableMeta, tableDescs: map<string, TableFact>,
                                columnDescs: map<string, map<string, string>>)
    requires t !in columnDescs
    ensures Reconcile(t, meta, tableDescs, columnDescs).schema == Overlay(meta.schema, map[])
    ensures Changes(t, meta, columnDescs) == ChangedCount(meta.schema, map[])
  {
    EmptyMapNoOp(meta.schema);
  }

  /** Reconciling is idempotent, and a reconciled table reports no changed
      field: a second run over an unchanged sheet changes nothing. */
  lemma ReconcileIdempotent(t: string, meta: TableMeta, tableDescs: map<string, TableFact>,
                            columnDescs: map<string, map<string, string>>)
    ensures Reconcile(t, Reconcile(t, meta, tableDescs, columnDescs), tableDescs, columnDescs)
         == Reconcile(t, meta, tableDescs, columnDescs)
    ensures Changes(t, Reconcile(t, meta, tableDescs, columnDescs), columnDescs) == 0
  {
    if t in columnDescs {
      OverlayIdempotent(meta.schema, columnDescs[t]);
    }
  }

  /** The reported count is zero exactly when the schema is left as it is. */
  lemma ChangesZeroIff(t: string, meta: TableMeta, tableDescs: map<string, TableFact>,
                       columnDescs: map<string, map<string, string>>)
    ensures Changes(t, meta, columnDescs) == 0 <==>
      Reconcile(t, meta, tableDescs, columnDescs).schema == meta.schema
  {
    if t in columnDescs {
      NoOpIff(meta.schema, columnDescs[t]);
    }
  }

  // ---------------------------------------------------------------------
  // The catalog
  // ---------------------------------------------------------------------

  /** The warehouse catalog as the script sees it. `listing` is what
      `list_tables` returns per dataset, `tables` the metadata `get_table`
      returns, and `refused` the numbers of the `update_table` calls the
      service rejects (counted from 0 by `calls`). */
  class Catalog {
    const listing: map<string, seq<string>>
    const refused: set<nat>
    var tables: map<TableRef, TableMeta>
    var calls: nat

    /** Every listed table can be fetched. */
    ghost predicate Valid()
      reads this
    {
      forall d | d in listing :: forall t | t in listing[d] :: TableRef(d, t) in tables
    }

    constructor (listing: map<string, seq<string>>, tables: map<TableRef, TableMeta>, refused: set<nat>)
      requires forall d | d in listing :: forall t | t in listing[d] :: TableRef(d, t) in tables
      ensures Valid()
      ensures this.listing == listing && this.tables == tables && this.refused == refused
      ensures calls == 0
    {
      this.listing := listing;
      this.tables := tables;
      this.refused := refused;
      calls := 0;
    }

    /** `client.update_table(table, ["description", "schema"])`: one atomic
        call that either replaces both attributes or changes nothing. */
    method UpdateTable(ref: TableRef, meta: TableMeta) returns (ok: bool)
      requires Valid()
      modifies this
      ensures Valid()
      ensures calls == old(calls) + 1
      ensures ok <==> old(calls) !in refused
      ensures tables == if ok then old(tables)[ref := meta] else old(tables)
    {
      ok := calls !in refused;
      if ok {
        tables := tables[ref := meta];
      }
      calls := calls + 1;
    }
  }

  /** The body of the table loop (lines 124-170): fetch, recompute the
      description and the schema, and attempt one update. A refused update
      leaves the table as it was. */
  method ProcessTable(catalog: Catalog, ref: TableRef, tableDescs: map<string, TableFact>,
                      columnDescs: map<string, map<string, string>>) returns (attempt: Attempt)
    requires catalog.Valid() && ref in catalog.tables
    modifies catalog
    ensures catalog.Valid()
    ensures attempt.ref == ref
    ensures attempt.ok <==> old(catalog.calls) !in catalog.refused
    ensures attempt.changed == Changes(ref.table, old(catalog.tables)[ref], columnDescs)
    ensures catalog.calls == old(catalog.calls) + 1
    ensures catalog.tables == if attempt.ok
      then old(catalog.tables)[ref := Reconcile(ref.table, old(catalog.tables)[ref], tableDescs, columnDescs)]
      else old(catalog.tables)
  {
    var table := catalog.tables[ref];
    var description, schema := table.description, table.schema;
    var tableInfo := Lookup(tableDescs, ref.table);
    if tableInfo.Some? && tableInfo.value.description != "" {
      description := Some(MergedDescription(tableInfo.value));
    }
    var updatedCount := 0;
    if ref.table in columnDescs {
      schema, updatedCount := OverlaySchema(schema, columnDescs[ref.table]);
    }
    var ok := catalog.UpdateTable(ref, TableMeta(description, schema));
    attempt := Attempt(ref, updatedCount, ok);
  }

  // ---------------------------------------------------------------------
  // The dataset and table loops
  // ---------------------------------------------------------------------

  /** The tables `list_tables` yields for dataset `d`, in order. */
  function DatasetRefs(d: string, names: seq<string>): seq<TableRef>
  {
    seq(|names|, i requires 0 <= i < |names| => TableRef(d, names[i]))
  }

  /** Every table of every target dataset, in processing order. */
  function Plan(targets: seq<string>, listing: map<string, seq<string>>): (p: seq<TableRef>)
    requires forall j :: 0 <= j < |targets| ==> targets[j] in listing
    ensures forall i :: 0 <= i < |p| ==> p[i].dataset in targets && p[i].table in listing[p[i].dataset]
  {
    if targets == [] then []
    else
      var d := targets[|targets| - 1];
      Plan(targets[..|targets| - 1], listing) + DatasetRefs(d, listing[d])
  }

  /** Index of the first target dataset the catalog cannot list,
      `|targets|` if none. */
  function FirstUnlisted(targets: seq<string>, listing: map<string, seq<string>>): (n: nat)
    ensures n <= |targets|
    ensures forall j :: 0 <= j < n ==> targets[j] in listing
    ensures n < |targets| ==> targets[n] !in listing
  {
    if targets == [] || targets[0] !in listing then 0
    else 1 + FirstUnlisted(targets[1..], listing)
  }

  /** A table is attempted exactly when it is listed in a target dataset. */
  lemma {:induction false} PlanCovers(targets: seq<string>, listing: map<string, seq<string>>, r: TableRef)
    requires forall j :: 0 <= j < |targets| ==> targets[j] in listing
    ensures r in Plan(targets, listing) <==>
      r.dataset in targets && r.dataset in listing && r.table in listing[r.dataset]
  {
    if targets != [] {
      var n := |targets| - 1;
      var d := targets[n];
      PlanCovers(targets[..n], listing, r);
      assert targets == targets[..n] + [d];
      assert r in DatasetRefs(d, listing[d]) <==> r.dataset == d && r.table in listing[d] by {
        if r in DatasetRefs(d, listing[d]) {
          var i :| 0 <= i < |listing[d]| && DatasetRefs(d, listing[d])[i] == r;
        }
        if r.dataset == d && r.table in listing[d] {
          var i :| 0 <= i < |listing[d]| && listing[d][i] == r.table;
          assert DatasetRefs(d, listing[d])[i] == r;
        }
      }
    }
  }

  /** Some attempt in `log` updated `r` successfully. */
  predicate UpdatedIn(log: seq<Attempt>, r: TableRef) {
    exists i :: 0 <= i < |log| && log[i].ref == r && log[i].ok
  }

  /** What the loops guarantee after the attempts in `log`, made for the
      tables `refs`, starting from tables `t0` and call number `c0`. */
  ghost predicate Progress(t0: map<TableRef, TableMeta>, c0: nat, refused: set<nat>,
                           tables: map<TableRef, TableMeta>, calls: nat,
                           log: seq<Attempt>, refs: seq<TableRef>,
                           tableDescs: map<string, TableFact>, columnDescs: map<string, map<string, string>>)
  {
    && |log| == |refs|
    && calls == c0 + |log|
    && (forall i :: 0 <= i < |log| ==> log[i].ref == refs[i] && refs[i] in t0)
    && (forall i :: 0 <= i < |log| ==> (log[i].ok <==> c0 + i !in refused))
    && (forall i :: 0 <= i < |log| ==>
          log[i].changed == (if UpdatedIn(log[..i], log[i].ref) then 0
                             else Changes(log[i].ref.table, t0[log[i].ref], columnDescs)))
    && tables.Keys == t0.Keys
    && (forall r :: r in t0 ==>
          tables[r] == (if UpdatedIn(log, r) then Reconcile(r.table, t0[r], tableDescs, columnDescs) else t0[r]))
  }

  /** One more attempt keeps `Progress`: whether or not the table was
      already updated earlier in the run, it ends up reconciled from its
      initial state, and a refused call leaves it alone. */
  lemma ProgressStep(t0: map<TableRef, TableMeta>, c0: nat, refused: set<nat>,
                     tables: map<TableRef, TableMeta>, calls: nat,
                     log: seq<Attempt>, refs: seq<TableRef>,
                     tableDescs: map<string, TableFact>, columnDescs: map<string, map<string, string>>,
                     ref: TableRef, attempt: Attempt, tables': map<TableRef, TableMeta>)
    requires Progress(t0, c0, refused, tables, calls, log, refs, tableDescs, columnDescs)
    requires ref in t0
    requires attempt.ref == ref
    requires attempt.ok <==> calls !in refused
    requires attempt.changed == Changes(ref.table, tables[ref], columnDescs)
    requires tables' == if attempt.ok
      then tables[ref := Reconcile(ref.table, tables[ref], tableDescs, columnDescs)]
      else tables
    ensures Progress(t0, c0, refused, tables', calls + 1, log + [attempt], refs + [ref], tableDescs, columnDescs)
  {
    var log' := log + [attempt];
    ReconcileIdempotent(ref.table, t0[ref], tableDescs, columnDescs);
    assert log'[..|log|] == log;
    forall i | 0 <= i < |log| ensures log'[..i] == log[..i] {
    }
    forall r | r in t0 ensures UpdatedIn(log', r) <==> UpdatedIn(log, r) || (r == ref && attempt.ok) {
      UpdatedInSnoc(log, attempt, r);
    }
  }

  /** Appending an attempt adds its table to the updated ones exactly when
      the attempt succeeded. */
  lemma UpdatedInSnoc(log: seq<Attempt>, attempt: Attempt, r: TableRef)
    ensures UpdatedIn(log + [attempt], r) <==> UpdatedIn(log, r) || (r == attempt.ref && attempt.ok)
  {
    var log' := log + [attempt];
    if UpdatedIn(log', r) {
      var i :| 0 <= i < |log'| && log'[i].ref == r && log'[i].ok;
      if i < |log| {
        assert log[i] == log'[i];
      }
    }
    if UpdatedIn(log, r) {
      var i :| 0 <= i < |log| && log[i].ref == r && log[i].ok;
      assert log'[i] == log[i];
    }
    if r == attempt.ref && attempt.ok {
      assert log'[|log|] == attempt;
    }
  }

  /** The table loop of one dataset: one attempt per listed table, in
      listing order, each extending `Progress` by one step. */
  method ProcessDataset(catalog: Catalog, datasetId: string, tableDescs: map<string, TableFact>,
                        columnDescs: map<string, map<string, string>>,
                        ghost t0: map<TableRef, TableMeta>, ghost c0: nat,
                        ghost log0: seq<Attempt>, ghost refs0: seq<TableRef>)
    returns (attempts: seq<Attempt>)
    requires catalog.Valid()
    requires datasetId in catalog.listing
    requires Progress(t0, c0, catalog.refused, catalog.tables, catalog.calls, log0, refs0, tableDescs, columnDescs)
    modifies catalog
    ensures catalog.Valid()
    ensures Progress(t0, c0, catalog.refused, catalog.tables, catalog.calls, log0 + attempts,
                     refs0 + DatasetRefs(datasetId, catalog.listing[datasetId]), tableDescs, columnDescs)
  {
    var tables := catalog.listing[datasetId];
    attempts := [];
    var k := 0;
    ghost var log, refs := log0, refs0;
    assert log0 + attempts == log0;
    assert refs0 + DatasetRefs(datasetId, tables[..k]) == refs0;
    while k < |tables|
      invariant 0 <= k <= |tables|
      invariant catalog.Valid()
      invariant log == log0 + attempts
      invariant refs == refs0 + DatasetRefs(datasetId, tables[..k])
      invariant Progress(t0, c0, catalog.refused, catalog.tables, catalog.calls, log, refs, tableDescs, columnDescs)
    {
      var ref := TableRef(datasetId, tables[k]);
      ghost var before, calls := catalog.tables, catalog.calls;
      var attempt := ProcessTable(catalog, ref, tableDescs, columnDescs);
      ProgressStep(t0, c0, catalog.refused, before, calls, log, refs, tableDescs, columnDescs,
                   ref, attempt, catalog.tables);
      assert DatasetRefs(datasetId, tables[..k + 1]) == DatasetRefs(datasetId, tables[..k]) + [ref];
      attempts := attempts + [attempt];
      log, refs := log + [attempt], refs + [ref];
      k := k + 1;
    }
    assert tables[..k] == tables;
  }

  /** The dataset and table loops of `update_bigquery_metadata`. For each
      entry of the dataset list, in order, every table the dataset lists
      gets one update attempt, whatever happened to earlier attempts; a
      dataset named twice is processed twice. The run stops only at a
      dataset the catalog cannot list. */
  method UpdateMetadata(catalog: Catalog, targets: seq<string>, tableDescs: map<string, TableFact>,
                        columnDescs: map<string, map<string, string>>)
    returns (log: seq<Attempt>, fatal: Option<string>)
    requires catalog.Valid()
    modifies catalog
    ensures catalog.Valid()
    ensures var n := FirstUnlisted(targets, catalog.listing);
      && fatal == (if n < |targets| then Some(targets[n]) else None)
      && |log| == |Plan(targets[..n], catalog.listing)|
      && forall i :: 0 <= i < |log| ==> log[i].ref == Plan(targets[..n], catalog.listing)[i]
    ensures catalog.calls == old(catalog.calls) + |log|
    ensures forall i :: 0 <= i < |log| ==> (log[i].ok <==> old(catalog.calls) + i !in catalog.refused)
    ensures forall i :: 0 <= i < |log| ==> log[i].ref in old(catalog.tables)
    ensures forall i :: 0 <= i < |log| ==>
      log[i].changed == (if UpdatedIn(log[..i], log[i].ref) then 0
                         else Changes(log[i].ref.table, old(catalog.tables)[log[i].ref], columnDescs))
    ensures catalog.tables.Keys == old(catalog.tables).Keys
    ensures forall r :: r in old(catalog.tables) ==>
      catalog.tables[r] == (if UpdatedIn(log, r) then Reconcile(r.table, old(catalog.tables)[r], tableDescs, columnDescs)
                            else old(catalog.tables)[r])
  {
    ghost var t0, c0 := catalog.tables, catalog.calls;
    ghost var plan: seq<TableRef> := [];
    log := [];
    var j := 0;
    while j < |targets|
      invariant 0 <= j <= |targets|
      invariant forall jj :: 0 <= jj < j ==> targets[jj] in catalog.listing
      invariant plan == Plan(targets[..j], catalog.listing)
      invariant catalog.Valid()
      invariant Progress(t0, c0, catalog.refused, catalog.tables, catalog.calls, log, plan, tableDescs, columnDescs)
    {
      var datasetId := targets[j];
      if datasetId !in catalog.listing {
        fatal := Some(datasetId);
        return;
      }
      var attempts := ProcessDataset(catalog, datasetId, tableDescs, columnDescs, t0, c0, log, plan);
      log := log + attempts;
      assert targets[..j + 1][..j] == targets[..j];
      plan := plan + DatasetRefs(datasetId, catalog.listing[datasetId]);
      j := j + 1;
    }
    assert targets[..j] == targets;
    fatal := None;
  }

  /** The whole run: extract both maps, then update the catalog. An unpack
      error in the table list stops the run before the catalog is touched;
      a worksheet read error never does. */
  method Sync(catalog: Catalog, rawTargets: string, tableRows: seq<TableRow>, sheets: seq<Worksheet>)
    returns (log: seq<Attempt>, fatal: Option<RunError>)
    requires catalog.Valid()
    modifies catalog
    ensures catalog.Valid()
    ensures var targets := TargetDatasets(rawTargets);
      TableInfo(tableRows, targets).Failure? ==>
        && fatal == Some(Unpack(TableInfo(tableRows, targets).error.key))
        && log == []
        && catalog.tables == old(catalog.tables) && catalog.calls == old(catalog.calls)
    ensures var targets := TargetDatasets(rawTargets);
      var n := FirstUnlisted(targets, catalog.listing);
      TableInfo(tableRows, targets).Success? ==>
        && fatal == (if n < |targets| then Some(DatasetNotFound(targets[n])) else None)
        && |log| == |Plan(targets[..n], catalog.listing)|
        && (forall i :: 0 <= i < |log| ==> log[i].ref == Plan(targets[..n], catalog.listing)[i])
        && (forall i :: 0 <= i < |log| ==> (log[i].ok <==> old(catalog.calls) + i !in catalog.refused))
        && catalog.tables.Keys == old(catalog.tables).Keys
        && (forall r :: r in old(catalog.tables) ==>
              catalog.tables[r] == (if UpdatedIn(log, r)
                                    then Reconcile(r.table, old(catalog.tables)[r], TableInfo(tableRows, targets).value, ColumnSchemas(sheets))
                                    else old(catalog.tables)[r]))
  {
    var targets := TargetDatasets(rawTargets);
    var tableDescriptions := ExtractTableDescriptions(tableRows, targets);
    if tableDescriptions.Failure? {
      return [], Some(Unpack(tableDescriptions.error.key));
    }
    var columnDescriptions := ExtractColumnSchemas(sheets);
    var missing;
    log, missing := UpdateMetadata(catalog, targets, tableDescriptions.value, columnDescriptions);
    fatal := if missing.Some? then Some(DatasetNotFound(missing.value)) else None;
  }

  /** Running twice against a catalog that accepts every further update
      call: both runs attempt the same planned tables, up to the first
      dataset the catalog cannot list; the second run reports no changed
      field for any of them and leaves every table as the first run left
      it. */
  method RerunChangesNothing(catalog: Catalog, targets: seq<string>, tableDescs: map<string, TableFact>,
                             columnDescs: map<string, map<string, string>>)
    returns (first: seq<Attempt>, second: seq<Attempt>)
    requires catalog.Valid()
    requires forall c | c in catalog.refused :: c < catalog.calls
    modifies catalog
    ensures var n := FirstUnlisted(targets, catalog.listing);
      && |first| == |second| == |Plan(targets[..n], catalog.listing)|
      && forall i :: 0 <= i < |first| ==> first[i].ref == second[i].ref == Plan(targets[..n], catalog.listing)[i]
    ensures forall i :: 0 <= i < |first| ==> first[i].ok
    ensures forall i :: 0 <= i < |second| ==> second[i].ok && second[i].changed == 0
    ensures catalog.tables.Keys == old(catalog.tables).Keys
    ensures forall r :: r in old(catalog.tables) ==>
      catalog.tables[r] == (if UpdatedIn(first, r) then Reconcile(r.table, old(catalog.tables)[r], tableDescs, columnDescs)
                            else old(catalog.tables)[r])
  {
    var fatal;
    first, fatal := UpdateMetadata(catalog, targets, tableDescs, columnDescs);
    ghost var afterFirst := catalog.tables;
    second, fatal := UpdateMetadata(catalog, targets, tableDescs, columnDescs);
    forall i | 0 <= i < |second| ensures second[i].changed == 0 {
      var r := second[i].ref;
      assert first[i].ref == r && first[i].ok;
      assert UpdatedIn(first, r);
      ReconcileIdempotent(r.table, old(catalog.tables)[r], tableDescs, columnDescs);
      assert afterFirst[r] == Reconcile(r.table, old(catalog.tables)[r], tableDescs, columnDescs);
    }
    forall r | r in old(catalog.tables)
      ensures catalog.tables[r] == (if UpdatedIn(first, r) then Reconcile(r.table, old(catalog.tables)[r], tableDescs, columnDescs)
                                    else old(catalog.tables)[r])
    {
      if UpdatedIn(second, r) {
        var i :| 0 <= i < |second| && second[i].ref == r && second[i].ok;
        assert first[i].ref == r && first[i].ok;
        assert UpdatedIn(first, r);
        ReconcileIdempotent(r.table, old(catalog.tables)[r], tableDescs, columnDescs);
      }
    }
  }

  // ---------------------------------------------------------------------
  // Examples
  // ---------------------------------------------------------------------

  /** The status suffix appears only with a non-empty status. */
  lemma MergedDescriptionExamples()
    ensures MergedDescription(TableFact("Orders table", "Active")) == "Orders table (狀態: Active)"
    ensures MergedDescription(TableFact("Orders table", "")) == "Orders table"
  {
  }

  /** The dataset list is not trimmed. */
  lemma TargetDatasetsExample()
    ensures TargetDatasets("dataset1, dataset2") == ["dataset1", " dataset2"]
  {
    SplitJoin(["dataset1", " dataset2"], ',');
    assert Join(["dataset1", " dataset2"], ',') == "dataset1, dataset2";
  }
}
