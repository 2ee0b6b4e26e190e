# Spreadsheet-to-warehouse description sync, modelled in Dafny

`update_bigquery_descriptions.py` copies table and column descriptions
from a Google spreadsheet into the BigQuery catalog. This project models
the script's reconciliation engine and proves its properties. The network
clients are replaced by plain inputs and by a `Catalog` object.

- **Table descriptions** (`Sheet.ExtractTableDescriptions`). The rows of
  the table-list worksheet carry a `BQ Table` key of the form
  `<dataset>.<table>`. They are folded into a map `table -> {description,
  status}`. Rows are kept only when their dataset is a target. A later row
  overwrites an earlier one. A key with more than one `.` makes the
  two-way unpack raise, and nothing catches that error, so the whole
  extraction fails.
- **Column descriptions** (`Sheet.ExtractColumnSchemas`). Only worksheets
  whose title starts with `sem.` are read. Their table key is the title
  with every `sem.` removed. Their rows become `column -> description`. A
  worksheet that fails to read is skipped. A worksheet that yields no
  column adds no entry.
- **Per-table recomputation** (`Reconciler.ProcessTable`, using
  `Reconciler.MergedDescription` and `Schema.OverlaySchema`). A non-empty
  sheet description, plus ` (狀態: <status>)` when the status is
  non-empty, replaces the table description. Mapped non-empty column
  descriptions are laid over the top-level schema fields. Order, names,
  types, modes and nested sub-fields are kept. Changed fields are counted.
- **Apply loop** (`Reconciler.UpdateMetadata`, `Reconciler.Sync`). For
  each entry of the dataset list, in order, every table the dataset lists
  gets one `update_table` call. A dataset named twice in the list is
  processed twice, and its tables get two calls. A refused call leaves
  that table as it was, and the loop goes on.

The update service is a `Catalog` object. It holds the dataset listing,
the table metadata, and the set of call numbers it refuses. Re-running is
idempotent: a reconciled table reconciles to itself and reports zero
changed fields (`Reconciler.ReconcileIdempotent`,
`Reconciler.RerunChangesNothing`).

Three behaviours of the script are worth stating plainly:
- The key of a table-list row is split with `split('.')` and unpacked into
  exactly two names. A key such as `a.b.c` raises, and the whole
  extraction stops (`Sheet.ExtraSeparatorAborts`).
- The table name of a worksheet is its title after `replace('sem.', '')`.
  This removes every `sem.`, not only the leading one
  (`Sheet.SheetTableInnerExample`, `Sheet.SheetTableRejoinExample`). For a
  title with no other `sem.`, it is the rest of the title
  (`Sheet.SheetTableStrip`).
- Table facts are looked up by table id alone. Same-named tables in two
  target datasets therefore receive the same sheet description.

## Model

| member | source | states |
|---|---|---|
| `Sheet.TableInfo` | update_bigquery_descriptions.py:35-47 | the reference result of the table-list loop: the last-wins fold of the rows' upserts, or the error of the first row that fails to unpack; it is a failure iff some row fails to unpack |
| `Sheet.ExtractTableDescriptions` | update_bigquery_descriptions.py:35-47 | the row loop returns the last-wins map of the rows whose key passes the guard and whose dataset is a target, and it fails exactly when some row's key does not unpack into two parts |
| `Sheet.FirstUnpackFailure` | update_bigquery_descriptions.py:36-42 | the first row whose guarded key fails to unpack: every earlier row unpacks |
| `Sheet.FirstFailureAt` | update_bigquery_descriptions.py:36-42 | the extraction stops at row `n` exactly when no earlier row fails to unpack and row `n` does |
| `Sheet.UnpackFailsIff` | update_bigquery_descriptions.py:41-42 | a row aborts the extraction exactly when its key has two or more `.` |
| `Sheet.TableEntryOfKey` | update_bigquery_descriptions.py:41-47 | a key `d.t` with dot-free parts never aborts, and it stores `{description, status}` (missing cells as `''`) under `t` exactly when `d` is a target |
| `Sheet.RegistersIff` | update_bigquery_descriptions.py:41-44 | a row stores a fact under `t` iff its key is `d.t` with `d` a target and neither part containing `.` |
| `Sheet.TableInfoKeys` | update_bigquery_descriptions.py:36-47 | a table is in the extracted map iff some row stores it |
| `Sheet.TableInfoLastWins` | update_bigquery_descriptions.py:44-47 | the fact kept for a table comes from the last row storing it |
| `Sheet.ExtraSeparatorAborts` | update_bigquery_descriptions.py:41-42 | a key `ds.b.c` makes the extraction fail even after a good row |
| `Sheet.Columns` | update_bigquery_descriptions.py:79-87 | the reference `columns` dictionary of one worksheet, the last-wins fold of its named rows; characterised by `Sheet.ColumnsKeys` and `Sheet.ColumnsLastWins` |
| `Sheet.ReadColumns` | update_bigquery_descriptions.py:79-87 | the row loop of one worksheet builds the last-wins `column -> description` map |
| `Sheet.ColumnsKeys` | update_bigquery_descriptions.py:81-86 | a column is collected iff some row names it with a non-empty `BQ 欄位` |
| `Sheet.ColumnsLastWins` | update_bigquery_descriptions.py:83-86 | a column keeps the description of its last row, `''` when that cell is missing |
| `Sheet.ColumnSchemas` | update_bigquery_descriptions.py:64-94 | the reference `column_schemas` dictionary, the last-wins fold over worksheets; characterised by `Sheet.ColumnSchemasKeys` and `Sheet.ColumnSchemasLastWins` |
| `Sheet.ExtractColumnSchemas` | update_bigquery_descriptions.py:64-94 | the worksheet loop builds the `table -> columns` map from read `sem.` worksheets only, and every stored column map is non-empty |
| `Sheet.ColumnSchemasKeys` | update_bigquery_descriptions.py:67-89 | a table has column descriptions iff some `sem.` worksheet whose title maps to it was read and yielded a column |
| `Sheet.ColumnSchemasLastWins` | update_bigquery_descriptions.py:88-89 | a later worksheet for the same table replaces the earlier column map as a whole |
| `Sheet.UnreadSheetIgnored` | update_bigquery_descriptions.py:70-72 | the rows of a worksheet without the `sem.` prefix, or its read error, never affect the result |
| `Sheet.SkippedSheetContained` | update_bigquery_descriptions.py:77-94 | a skipped or failed worksheet can be removed without changing the result, so later worksheets are processed as if it were absent |
| `Sheet.SingleSheet` | update_bigquery_descriptions.py:88-89 | one read `sem.` worksheet with columns gives exactly its table those columns |
| `Sheet.ColumnSchemasExample` | update_bigquery_descriptions.py:67-89 | `sem.orders` with `amount: order total` yields `{orders: {amount: order total}}`, and the other-titled and failing worksheets add nothing |
| `Sheet.SheetTable` | update_bigquery_descriptions.py:75 | the table name of a worksheet, its title with every `sem.` removed |
| `Sheet.SheetTableStrip` | update_bigquery_descriptions.py:75 | for every title `sem.<rest>` where `sem.` does not occur in `<rest>`, the table name is `<rest>` |
| `Sheet.SheetTableUntouched` | update_bigquery_descriptions.py:75 | a title names its table unchanged iff `sem.` occurs nowhere in it |
| `Sheet.SheetTablePrefixExample` | update_bigquery_descriptions.py:75 | `sem.orders` maps to table `orders` |
| `Sheet.SheetTableInnerExample` | update_bigquery_descriptions.py:75 | `sem.a_sem.b` maps to `a_b`: every `sem.` is removed |
| `Sheet.SheetTableRejoinExample` | update_bigquery_descriptions.py:75 | `ssem.em.` maps to `sem.`: a removal can expose a new `sem.`, and that one is kept |
| `Text.Split` | update_bigquery_descriptions.py:42 | `split` yields one more piece than there are separators, and no piece contains the separator |
| `Text.JoinSplit` | update_bigquery_descriptions.py:42 | joining the pieces of a split gives back the input |
| `Text.SplitJoin` | update_bigquery_descriptions.py:42 | splitting a join of separator-free pieces gives back the pieces |
| `Text.TwoPartKey` | update_bigquery_descriptions.py:42 | a key splits into `[a, b]` iff it is `a.b` with dot-free parts |
| `Text.RemoveAll` | update_bigquery_descriptions.py:75 | `replace(pattern, '')` never lengthens the string |
| `Text.RemoveAllFixedIff` | update_bigquery_descriptions.py:75 | `replace` leaves a title unchanged iff the pattern does not occur in it |
| `LastWins.CollectKeys` | update_bigquery_descriptions.py:44 | a dictionary filled by upserts holds a key iff some upsert wrote it |
| `LastWins.CollectLastWins` | update_bigquery_descriptions.py:86 | the value under a key is the one from the last upsert of that key |
| `LastWins.CollectDropSkipped` | update_bigquery_descriptions.py:89 | a skipped item can be removed without changing the dictionary |
| `Schema.NewDescription` | update_bigquery_descriptions.py:147 | `col_descs.get(field.name, field.description)`: the mapped description when the name is mapped, otherwise the current one |
| `Schema.Changed` | update_bigquery_descriptions.py:150 | the test that increments `updated_count`; characterised by `Schema.ChangedIff` and `Schema.ChangedIffDiffers` |
| `Schema.OverlayField` | update_bigquery_descriptions.py:147-159 | a rebuilt field keeps its name, type, mode and nested fields; its description becomes the mapped value when that value is non-empty and stays as it was otherwise |
| `Schema.Overlay` | update_bigquery_descriptions.py:146-160 | the reference `new_schema`: every field rebuilt by `Schema.OverlayField`, in the original order |
| `Schema.ChangedCount` | update_bigquery_descriptions.py:147-151 | the final `updated_count`: the number of fields passing `Schema.Changed`, at most the number of fields |
| `Schema.OverlaySchema` | update_bigquery_descriptions.py:141-162 | the field loop returns the overlaid fields in the original order and the count of changed fields |
| `Schema.ChangedIff` | update_bigquery_descriptions.py:147-151 | a field is counted iff the map has a non-empty description for it that differs from the current one |
| `Schema.ChangedIffDiffers` | update_bigquery_descriptions.py:150-159 | a field is counted iff rebuilding it alters it |
| `Schema.ChangedCountZeroIff` | update_bigquery_descriptions.py:146-151 | the count is zero iff no field is counted |
| `Schema.NoOpIff` | update_bigquery_descriptions.py:146-162 | the count is zero iff the new schema equals the old one |
| `Schema.EmptyMapNoOp` | update_bigquery_descriptions.py:146-162 | an empty column map changes nothing and counts zero |
| `Schema.OverlayIdempotent` | update_bigquery_descriptions.py:146-162 | overlaying the same map twice equals overlaying once, and the second pass counts zero |
| `Schema.NestedFieldExample` | update_bigquery_descriptions.py:153-158 | a record field keeps its sub-fields even when the map names a sub-field, and an empty mapped description keeps the old one |
| `Reconciler.TargetDatasets` | update_bigquery_descriptions.py:17 | the comma split of the dataset setting is lossless: comma-free pieces that join back to the setting |
| `Reconciler.TargetDatasetsExample` | update_bigquery_descriptions.py:17 | `dataset1, dataset2` yields ` dataset2` with its leading space |
| `Reconciler.MergedDescription` | update_bigquery_descriptions.py:133-135 | the new description starts with the sheet description, equals it iff the status is empty, and otherwise ends with ` (狀態: <status>)` |
| `Reconciler.MergedDescriptionExamples` | update_bigquery_descriptions.py:133-135 | `Orders table` with status `Active` gives `Orders table (狀態: Active)`; with no status, `Orders table` |
| `Reconciler.Lookup` | update_bigquery_descriptions.py:131 | `table_descriptions.get(table_id, {})`: the sheet fact for the table id, if any |
| `Reconciler.Reconcile` | update_bigquery_descriptions.py:131-162 | the metadata sent for one table: the merged description when the sheet has a non-empty one, the overlaid schema when the sheet has columns for it; every field keeps its position, name, type, mode and sub-fields |
| `Reconciler.Changes` | update_bigquery_descriptions.py:141-151 | the `updated_count` reported for one table, zero without sheet columns, at most the number of fields |
| `Reconciler.ReconcileDescription` | update_bigquery_descriptions.py:131-137 | the description changes only when the sheet has a non-empty one, and it then begins with it |
| `Reconciler.ReconcileWithoutColumns` | update_bigquery_descriptions.py:141 | a table with no sheet columns keeps its schema and counts zero, as with an empty map |
| `Reconciler.ReconcileIdempotent` | update_bigquery_descriptions.py:131-162 | reconciling twice equals reconciling once, and a reconciled table reports zero changed fields |
| `Reconciler.ChangesZeroIff` | update_bigquery_descriptions.py:141-162 | the reported count is zero iff the schema is left unchanged |
| `Reconciler.Catalog.UpdateTable` | update_bigquery_descriptions.py:166-170 | one update call either replaces the table's description and schema or, when refused, changes nothing; every listed table stays fetchable |
| `Reconciler.ProcessTable` | update_bigquery_descriptions.py:123-170 | one table is fetched, reconciled and updated once; a refused update leaves the catalog unchanged; the reported count is that of the fetched schema |
| `Reconciler.ProcessDataset` | update_bigquery_descriptions.py:123-170 | the table loop of one dataset makes one attempt per listed table, in listing order, and keeps every table either untouched or reconciled from its state at the start of the run |
| `Reconciler.Plan` | update_bigquery_descriptions.py:116-123 | the tables attempted, in order: each entry of the dataset list contributes its listed tables, so a repeated dataset contributes them again; every planned table belongs to a listed target dataset |
| `Reconciler.FirstUnlisted` | update_bigquery_descriptions.py:116-120 | the first target dataset that cannot be listed: all earlier ones can |
| `Reconciler.PlanCovers` | update_bigquery_descriptions.py:116-123 | a table is attempted iff it is listed in some target dataset |
| `Reconciler.ProgressStep` | update_bigquery_descriptions.py:123-170 | after one more attempt, every table is still either untouched or reconciled from its state at the start of the run |
| `Reconciler.UpdatedInSnoc` | update_bigquery_descriptions.py:166-170 | appending an attempt adds its table to the successfully updated ones exactly when the update call succeeded |
| `Reconciler.UpdateMetadata` | update_bigquery_descriptions.py:116-170 | one attempt per listed table for each entry of the dataset list, in order, up to the first dataset that cannot be listed; refusals are independent of one another; each table ends reconciled iff some attempt on it succeeded, and untouched otherwise |
| `Reconciler.Sync` | update_bigquery_descriptions.py:99-170 | an unpack error stops the run before the catalog is touched; otherwise the run updates the catalog from the two extracted maps |
| `Reconciler.RerunChangesNothing` | update_bigquery_descriptions.py:116-170 | against a catalog that accepts every further call, both runs attempt exactly the planned tables, up to the first dataset the catalog cannot list, in the same order; every attempt succeeds, the second run reports zero changed fields for each, and the catalog ends as the first run left it: each planned table reconciled once from its initial state, every other table untouched |

## Left out

- Credentials, `gspread.authorize`, `open_by_key`, `get_worksheet_by_id(16282389)`, `worksheets()` and `get_all_records`. These are network clients. The table-list rows and the worksheets (title plus rows or read error) are inputs.
- How `get_all_records` turns a header row into keyed records, including its conversion of numeric-looking cells to numbers. Cells are modelled as optional strings.
- A failure to read the table-list worksheet. It is uncaught and fatal in the script, and its rows are an input here.
- `bigquery.Client`, `client.dataset`, `list_tables`, `get_table` and `update_table` are modelled by the `Catalog` object. A dataset missing from its listing stops the run. `get_table` is assumed to succeed for every listed table (`Catalog.Valid`). Its other failures are uncaught and fatal in the script.
- The reason an update is refused (permissions, conflicts) is not modelled. `Catalog.refused` only says which call numbers fail.
- The `BIGQUERY_PROJECT`, `GOOGLE_SHEET_ID` and `GOOGLE_APPLICATION_CREDENTIALS` settings are left out because they only address the clients. `TARGET_DATASETS` is a parameter, split by `Reconciler.TargetDatasets`.
- All console output.
- `Schema.SchemaField` carries only the five attributes the rebuild at lines 153-159 passes on: name, type, mode, description and sub-fields. Any other attribute of a fetched field (policy tags, default value, maximum length, precision, scale, collation and the like) is absent from the rebuilt field that `update_table` sends. The model does not capture that loss.
- `Reconciler.Sync`: it does not restate the per-attempt `changed` and `ref in catalog` guarantees. Those are stated by `Reconciler.UpdateMetadata`, which it calls.
