/** `convert_text`: turning a key-major table into the document that is written
    out, chosen by the output file's extension. The byte-level writers (csv,
    serde_json, serde_yaml, toml) are not part of this model: a document is
    the records or the nested object they are handed. */
module Formats {
  import opened Wrappers
  import opened LocaleStore

  /** A value of the nested object: the `_version` number or one key's
      locale -> text object. */
  datatype JValue = JNumber(n: int) | JObject(fields: map<string, string>)

  datatype Format = Json | Yaml | Toml

  datatype Document =
    | Csv(records: seq<seq<string>>)
    | Structured(format: Format, root: map<string, JValue>)

  /** The format version written into every structured document. */
  const FormatVersion: int := 2

  /** CSV records: a header `key` followed by the first row's locales, then one
      record per row holding its key and its texts in cell order. */
  function CsvRecords(rows: seq<Row>): (r: seq<seq<string>>)
    ensures |r| == |rows| + 1
    ensures r[0] == ["key"] + (if rows == [] then [] else CellLocales(rows[0].cells))
    ensures forall i :: 0 <= i < |rows| ==> r[i + 1] == [rows[i].key] + CellTexts(rows[i].cells)
  {
    var header := ["key"] + (if rows == [] then [] else CellLocales(rows[0].cells));
    [header] + seq(|rows|, i requires 0 <= i < |rows| => [rows[i].key] + CellTexts(rows[i].cells))
  }

  /** When every row has the locales of the header, the CSV is a proper grid:
      every record is as long as the header and column `j` of a record holds
      that row's text for the header's locale `j`. */
  lemma CsvColumnsLineUp(rows: seq<Row>, locales: seq<string>)
    requires rows != []
    requires forall i :: 0 <= i < |rows| ==> CellLocales(rows[i].cells) == locales
    ensures var r := CsvRecords(rows);
      && (forall i :: 0 <= i < |r| ==> |r[i]| == |locales| + 1)
      && (forall j :: 0 <= j < |locales| ==> r[0][j + 1] == locales[j])
      && (forall i, j :: 0 <= i < |rows| && 0 <= j < |locales| ==>
            r[i + 1][0] == rows[i].key && rows[i].cells[j] == (r[0][j + 1], r[i + 1][j + 1]))
  {
    var r := CsvRecords(rows);
    assert r[0] == ["key"] + locales;
    forall i | 0 <= i < |r| ensures |r[i]| == |locales| + 1 {
      if i > 0 {
        assert r[i] == [rows[i - 1].key] + CellTexts(rows[i - 1].cells);
      }
    }
    forall i, j | 0 <= i < |rows| && 0 <= j < |locales|
      ensures r[i + 1][0] == rows[i].key && rows[i].cells[j] == (r[0][j + 1], r[i + 1][j + 1])
    {
      CsvCell(rows, locales, i, j);
    }
  }

  lemma CsvCell(rows: seq<Row>, locales: seq<string>, i: nat, j: nat)
    requires i < |rows| && j < |locales|
    requires CellLocales(rows[0].cells) == locales && CellLocales(rows[i].cells) == locales
    ensures var r := CsvRecords(rows);
      r[i + 1][0] == rows[i].key && rows[i].cells[j] == (r[0][j + 1], r[i + 1][j + 1])
  {
    var r := CsvRecords(rows);
    var cells := rows[i].cells;
    assert r[0] == ["key"] + locales;
    assert r[i + 1] == [rows[i].key] + CellTexts(cells);
    assert CellLocales(cells)[j] == cells[j].0 && CellTexts(cells)[j] == cells[j].1;
  }

  /** The nested object: `_version` first, then every row's key bound to its
      locale -> text object, a later binding replacing an earlier one. */
  function StructuredRoot(rows: seq<Row>): (root: map<string, JValue>)
    ensures forall k :: k in root <==> k == "_version" || k in RowKeys(rows)
    ensures root["_version"] == JNumber(FormatVersion) <==> "_version" !in RowKeys(rows)
    ensures DistinctKeys(rows) ==> forall i :: 0 <= i < |rows| ==> root[rows[i].key] == JObject(CellMap(rows[i].cells))
  {
    if rows == [] then map["_version" := JNumber(FormatVersion)]
    else
      var init := rows[..|rows| - 1];
      var last := rows[|rows| - 1];
      assert RowKeys(rows) == RowKeys(init) + [last.key];
      StructuredRoot(init)[last.key := JObject(CellMap(last.cells))]
  }

  /** The text the document holds for `key` under `locale`. */
  function Field(root: map<string, JValue>, locale: string, key: string): Option<string> {
    if key in root && root[key].JObject? && locale in root[key].fields
    then Some(root[key].fields[locale])
    else None
  }

  /** Every cell of a row is found again in the nested object, under the row's
      key and the cell's locale. */
  lemma FieldOfCell(rows: seq<Row>, i: nat, j: nat)
    requires i < |rows| && j < |rows[i].cells|
    requires DistinctKeys(rows) && DistinctLocales(rows[i].cells)
    ensures Field(StructuredRoot(rows), rows[i].cells[j].0, rows[i].key) == Some(rows[i].cells[j].1)
  {
    var cells := rows[i].cells;
    assert CellLocales(cells)[j] == cells[j].0;
  }

  /** Nothing else is found: not a key no row has (the `_version` number is
      not an object), and not a locale the key's row has no cell for. */
  lemma FieldOutsideCells(rows: seq<Row>, locale: string, key: string)
    requires DistinctKeys(rows)
    ensures key !in RowKeys(rows) ==> Field(StructuredRoot(rows), locale, key) == None
    ensures forall i :: 0 <= i < |rows| && rows[i].key == key && locale !in CellLocales(rows[i].cells) ==>
      Field(StructuredRoot(rows), locale, key) == None
  {
  }

  /** Reading a structured document back as a store: every object-valued key
      contributes its (locale, text) pairs; the `_version` number is skipped. */
  function ReadStructured(root: map<string, JValue>): (t: Store)
    ensures forall l, k :: Get(t, l, k) == Field(root, l, k)
  {
    var locales := set k, l | k in root && root[k].JObject? && l in root[k].fields :: l;
    var t := map l | l in locales :: map k | k in root && root[k].JObject? && l in root[k].fields :: root[k].fields[l];
    assert forall l, k :: k in root && root[k].JObject? && l in root[k].fields ==> l in locales;
    t
  }

  /** `convert_text`: `csv` gives records; `json`, `yaml`/`yml` and `toml` give
      the nested object in that format; any other extension is an error.
      Extensions are matched exactly, so `CSV` or `Json` are errors too. */
  function ConvertText(rows: seq<Row>, format: string): (r: Result<Document>)
    ensures r.Success? <==> format in ["csv", "json", "yaml", "yml", "toml"]
    ensures format == "csv" ==> r == Success(Csv(CsvRecords(rows)))
    ensures r.Success? && format != "csv" ==> r.value.Structured? && r.value.root == StructuredRoot(rows)
  {
    if format == "csv" then Success(Csv(CsvRecords(rows)))
    else
      var root := StructuredRoot(rows);
      match format
      case "json" => Success(Structured(Json, root))
      case "yaml" => Success(Structured(Yaml, root))
      case "yml" => Success(Structured(Yaml, root))
      case "toml" => Success(Structured(Toml, root))
      case _ => Failure("unexpected file format: " + format)
  }
}
