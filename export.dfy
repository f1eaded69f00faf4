/**
 * The export route (lines 1061-1254): sanitize the query, take the rows the search
 * event returns, flatten them, then answer with CSV, XML or, for any other type,
 * JSON. The bytes written by `fputcsv`, `asXML` and `json_encode` are not modelled:
 * the model stops at the records, the element tree and the row list they receive.
 */
module Export {
  import opened PhpValues
  import opened Flattener
  import opened XmlExport
  import opened QuerySanitizer
  import opened Stage

  /** What the schema supplies to the export. */
  datatype Schema = Schema(
    name: string,
    plural: string,
    fieldNames: seq<string>,
    filterable: seq<string>,
    sortable: seq<string>)

  datatype ExportBody =
    | CsvBody(records: seq<seq<Value>>)
    | XmlBody(root: Element)
    | JsonBody(rows: seq<Row>)

  datatype ExportFile = ExportFile(headers: seq<(string, string)>, body: ExportBody)

  /** `$schema->getPlural() . '-' . date('Y-m-d')`, the date given as a parameter. */
  function ExportFilename(plural: string, date: string): string
  {
    plural + "-" + date
  }

  /** The three response headers every format sets. */
  function ExportHeaders(contentType: string, file: string): seq<(string, string)>
  {
    [("Content-Encoding", "UTF-8"),
     ("Content-Type", contentType),
     ("Content-Disposition", "attachment; filename=" + file)]
  }

  /** A PHP list holding `vs`, keyed 0..n-1. */
  function ListOf(vs: seq<Value>): Entries
  {
    seq(|vs|, i requires 0 <= i < |vs| => (Idx(i), vs[i]))
  }

  /** The header written when the search returned no rows: the schema's field names. */
  function FieldNameRecord(fieldNames: seq<string>): seq<Value>
  {
    seq(|fieldNames|, i requires 0 <= i < |fieldNames| => Str(fieldNames[i]))
  }

  /** The column names of a row, as `array_keys` returns them. */
  function HeaderOf(row: Row): seq<Value>
  {
    seq(|row|, j requires 0 <= j < |row| => KeyValue(row[j].0))
  }

  /**
   * The records handed to `fputcsv` (lines 1156-1183): with no rows, only the
   * schema's field names; otherwise the first row's keys, then every row's values,
   * in order.
   */
  method CsvRecords(rows: seq<Row>, fieldNames: seq<string>) returns (records: seq<seq<Value>>)
    ensures |rows| == 0 ==> records == [FieldNameRecord(fieldNames)]
    ensures |rows| > 0 ==> |records| == |rows| + 1 && records[0] == HeaderOf(rows[0])
    ensures |rows| > 0 ==> forall i :: 0 <= i < |rows| ==> records[i + 1] == ValuesOf(rows[i])
  {
    var table: seq<Entries>;
    if |rows| == 0 {
      table := [ListOf(FieldNameRecord(fieldNames))];
    } else {
      table := [ListOf(HeaderOf(rows[0]))] + rows;
    }
    records := [];
    var i := 0;
    while i < |table|
      invariant 0 <= i <= |table|
      invariant |records| == i
      invariant forall m :: 0 <= m < i ==> records[m] == ValuesOf(table[m])
    {
      records := records + [ValuesOf(table[i])];
      i := i + 1;
    }
    assert forall vs: seq<Value> :: ValuesOf(ListOf(vs)) == vs;
  }

  /**
   * Format dispatch (lines 1156-1253): type `csv` gives CSV, `xml` gives XML,
   * anything else JSON; each under `<plural>-<date>` with its own extension and
   * content type.
   */
  method RenderExport(exportType: Value, schema: Schema, date: string, rows: seq<Row>) returns (out: ExportFile)
    ensures exportType == Str("csv") ==>
      && out.headers == ExportHeaders("text/csv; charset=UTF-8", ExportFilename(schema.plural, date) + ".csv")
      && out.body.CsvBody?
      && |out.body.records| == (if |rows| == 0 then 1 else |rows| + 1)
      && (|rows| == 0 ==> out.body.records == [FieldNameRecord(schema.fieldNames)])
      && (|rows| > 0 ==> out.body.records[0] == HeaderOf(rows[0]))
      && (forall i :: 0 <= i < |rows| ==> out.body.records[i + 1] == ValuesOf(rows[i]))
    ensures exportType == Str("xml") ==>
      && out.headers == ExportHeaders("text/xml; charset=UTF-8", ExportFilename(schema.plural, date) + ".xml")
      && out.body == XmlBody(XmlDocument(schema.name, rows))
    ensures exportType != Str("csv") && exportType != Str("xml") ==>
      && out.headers == ExportHeaders("text/json; charset=UTF-8", ExportFilename(schema.plural, date) + ".json")
      && out.body == JsonBody(rows)
  {
    var filename := ExportFilename(schema.plural, date);
    if exportType == Str("csv") {
      var records := CsvRecords(rows, schema.fieldNames);
      return ExportFile(ExportHeaders("text/csv; charset=UTF-8", filename + ".csv"), CsvBody(records));
    }
    if exportType == Str("xml") {
      return ExportFile(ExportHeaders("text/xml; charset=UTF-8", filename + ".xml"), XmlBody(XmlDocument(schema.name, rows)));
    }
    out := ExportFile(ExportHeaders("text/json; charset=UTF-8", filename + ".json"), JsonBody(rows));
  }

  const RedirectKey: Key := Name("redirect")
  const SchemaKey: Key := Name("schema")
  const TypeKey: Key := Name("type")

  /** `sprintf('%s/system/object/%s/search', $admin, $request->getStage('schema'))` */
  function SearchRedirect(admin: string, schemaName: Value): Value
  {
    Str(admin + "/system/object/" + Text(schemaName) + "/search")
  }

  /**
   * The whole export route. `admin` is the configured admin path; `results` are the
   * rows the search event returned for the sanitized stage; `json` is PHP's
   * `json_encode`; `date` is today's `Y-m-d`. The route first stores where to redirect
   * (lines 1065-1069), then sanitizes the query, then renders the flattened rows in the
   * format named by `type`.
   */
  method ExportObjects(req: Request, admin: string, schema: Schema, results: seq<Row>, json: Value -> string, date: string)
    returns (out: ExportFile)
    requires req.Valid()
    requires forall i :: 0 <= i < |results| ==> UniqueKeys(results[i])
    modifies req
    ensures req.Valid()
    ensures req.stage == ExportQuery(
      Put(old(req.stage), RedirectKey, SearchRedirect(admin, old(req.GetStage(SchemaKey)))),
      schema.filterable, schema.sortable)
    ensures old(req.GetStage(TypeKey)) == Str("csv") ==>
      var rows := Flattened(json, results);
      && out.body.CsvBody?
      && |out.body.records| == (if |results| == 0 then 1 else |results| + 1)
      && (|results| == 0 ==> out.body.records == [FieldNameRecord(schema.fieldNames)])
      && (|results| > 0 ==> out.body.records[0] == HeaderOf(rows[0]))
      && (forall i :: 0 <= i < |results| ==> out.body.records[i + 1] == ValuesOf(rows[i]))
    ensures old(req.GetStage(TypeKey)) == Str("xml") ==>
      out.body == XmlBody(XmlDocument(schema.name, Flattened(json, results)))
    ensures old(req.GetStage(TypeKey)) != Str("csv") && old(req.GetStage(TypeKey)) != Str("xml") ==>
      out.body == JsonBody(Flattened(json, results)) && IsFlat(out.body.rows)
  {
    ghost var stage0 := req.stage;
    var redirect := SearchRedirect(admin, req.GetStage(SchemaKey));
    req.SetStage(RedirectKey, redirect);
    LookupPut(stage0, RedirectKey, redirect, TypeKey);
    PrepareExportQuery(req, schema.filterable, schema.sortable);
    var exportType := req.GetStage(TypeKey);
    assert exportType == old(req.GetStage(TypeKey)) by {
      ExportQueryLookup(Put(stage0, RedirectKey, redirect), schema.filterable, schema.sortable, TypeKey);
    }
    var rows := FlattenRows(json, results);
    FlattenedShape(json, results);
    out := RenderExport(exportType, schema, date, rows);
  }
}
