/** The column-description overlay of `update_bigquery_metadata`
    (update_bigquery_descriptions.py, lines 141-162): a table's ordered
    field list is rebuilt with the descriptions from the worksheet laid
    over the top-level fields, and the fields whose description changes
    are counted. */
module Schema {
  import opened Wrappers
  import opened Text

  /** A catalog schema field. `description` is `None` when the catalog has
      none; `fields` are the nested sub-fields of a record column. */
  datatype SchemaField = SchemaField(
    name: string,
    fieldType: string,
    mode: string,
    description: Option<string>,
    fields: seq<SchemaField>)

  /** `col_descs.get(field.name, field.description)`. */
  function NewDescription(f: SchemaField, descs: map<string, string>): Option<string>
  {
    if f.name in descs then Some(descs[f.name]) else f.description
  }

  /** The test that bumps `updated_count`: `new_desc and new_desc != field.description`. */
  predicate Changed(f: SchemaField, descs: map<string, string>)
  {
    Truthy(NewDescription(f, descs)) && NewDescription(f, descs) != f.description
  }

  /** The rebuilt field: name, type, mode and nested fields are copied, and
      the description is `new_desc or field.description`. */
  function OverlayField(f: SchemaField, descs: map<string, string>): (g: SchemaField)
    ensures g.name == f.name && g.fieldType == f.fieldType && g.mode == f.mode && g.fields == f.fields
    ensures g.description == if f.name in descs && descs[f.name] != "" then Some(descs[f.name]) else f.description
  {
    var newDesc := NewDescription(f, descs);
    SchemaField(f.name, f.fieldType, f.mode, if Truthy(newDesc) then newDesc else f.description, f.fields)
  }

  /** The new schema: each field rebuilt, in the original order. */
  function Overlay(schema: seq<SchemaField>, descs: map<string, string>): seq<SchemaField>
  {
    seq(|schema|, i requires 0 <= i < |schema| => OverlayField(schema[i], descs))
  }

  /** The final value of `updated_count`. */
  function ChangedCount(schema: seq<SchemaField>, descs: map<string, string>): (n: nat)
    ensures n <= |schema|
  {
    if schema == [] then 0
    else
      var last := schema[|schema| - 1];
      ChangedCount(schema[..|schema| - 1], descs) + (if Changed(last, descs) then 1 else 0)
  }

  /** The field loop that builds `new_schema` and `updated_count`. */
  method OverlaySchema(schema: seq<SchemaField>, descs: map<string, string>)
    returns (newSchema: seq<SchemaField>, updatedCount: nat)
    ensures newSchema == Overlay(schema, descs)
    ensures updatedCount == ChangedCount(schema, descs)
  {
    newSchema := [];
    updatedCount := 0;
    var i := 0;
    while i < |schema|
      invariant 0 <= i <= |schema|
      invariant newSchema == Overlay(schema[..i], descs)
      invariant updatedCount == ChangedCount(schema[..i], descs)
    {
      var field := schema[i];
      var newDesc := NewDescription(field, descs);
      if Truthy(newDesc) && newDesc != field.description {
        updatedCount := updatedCount + 1;
      }
      var newField := SchemaField(
        field.name, field.fieldType, field.mode,
        if Truthy(newDesc) then newDesc else field.description,
        field.fields);
      newSchema := newSchema + [newField];
      assert schema[..i + 1][..i] == schema[..i];
      i := i + 1;
    }
    assert schema[..i] == schema;
  }

  /** A field counts as changed exactly when the worksheet has a non-empty
      description for it that differs from the current one. */
  lemma ChangedIff(f: SchemaField, descs: map<string, string>)
    ensures Changed(f, descs) <==>
      f.name in descs && descs[f.name] != "" && Some(descs[f.name]) != f.description
  {
  }

  /** A field is counted exactly when rebuilding it alters it. */
  lemma ChangedIffDiffers(f: SchemaField, descs: map<string, string>)
    ensures Changed(f, descs) <==> OverlayField(f, descs) != f
  {
  }

  /** The count is zero exactly when no field is counted as changed. */
  lemma {:induction false} ChangedCountZeroIff(schema: seq<SchemaField>, descs: map<string, string>)
    ensures ChangedCount(schema, descs) == 0 <==> forall i :: 0 <= i < |schema| ==> !Changed(schema[i], descs)
  {
    if schema != [] {
      var init := schema[..|schema| - 1];
      ChangedCountZeroIff(init, descs);
      assert forall i :: 0 <= i < |init| ==> init[i] == schema[i];
    }
  }

  /** The overlay is a no-op, with a zero count, exactly when the count is
      zero: a zero count means the output equals the input. */
  lemma NoOpIff(schema: seq<SchemaField>, descs: map<string, string>)
    ensures ChangedCount(schema, descs) == 0 <==> Overlay(schema, descs) == schema
  {
    ChangedCountZeroIff(schema, descs);
    forall i | 0 <= i < |schema| {
      ChangedIffDiffers(schema[i], descs);
    }
    if Overlay(schema, descs) == schema {
      forall i | 0 <= i < |schema| ensures !Changed(schema[i], descs) {
        assert Overlay(schema, descs)[i] == schema[i];
      }
    }
  }

  /** An empty column map changes nothing. */
  lemma EmptyMapNoOp(schema: seq<SchemaField>)
    ensures ChangedCount(schema, map[]) == 0
    ensures Overlay(schema, map[]) == schema
  {
    NoOpIff(schema, map[]);
    ChangedCountZeroIff(schema, map[]);
  }

  /** Overlaying the same map a second time changes nothing: re-running
      with an unchanged worksheet finds no field to update. */
  lemma OverlayIdempotent(schema: seq<SchemaField>, descs: map<string, string>)
    ensures Overlay(Overlay(schema, descs), descs) == Overlay(schema, descs)
    ensures ChangedCount(Overlay(schema, descs), descs) == 0
  {
    var once := Overlay(schema, descs);
    ChangedCountZeroIff(once, descs);
    NoOpIff(once, descs);
  }

  /** A record field keeps its sub-fields exactly, even when the map has an
      entry whose name matches a sub-field; only the top-level description
      is overlaid, and an empty mapped description keeps the old one. */
  lemma NestedFieldExample()
    ensures
      var item := SchemaField("sku", "STRING", "NULLABLE", None, []);
      var schema := [SchemaField("items", "RECORD", "REPEATED", Some("old"), [item]),
                     SchemaField("amount", "FLOAT", "NULLABLE", Some("kept"), [])];
      var descs := map["items" := "line items", "sku" := "stock unit", "amount" := ""];
      && Overlay(schema, descs) ==
           [SchemaField("items", "RECORD", "REPEATED", Some("line items"), [item]),
            SchemaField("amount", "FLOAT", "NULLABLE", Some("kept"), [])]
      && ChangedCount(schema, descs) == 1
  {
    var item := SchemaField("sku", "STRING", "NULLABLE", None, []);
    var schema := [SchemaField("items", "RECORD", "REPEATED", Some("old"), [item]),
                   SchemaField("amount", "FLOAT", "NULLABLE", Some("kept"), [])];
    var descs := map["items" := "line items", "sku" := "stock unit", "amount" := ""];
    assert schema[..1] == [schema[0]];
  }
}
