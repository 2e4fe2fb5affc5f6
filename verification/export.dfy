/** The export command: the key x locale matrix built from the loaded store
    under the missing-value policy, and the document it becomes. */
module ExportCommand {
  import opened Wrappers
  import opened LocaleStore
  import opened StringOrder
  import opened Settings
  import opened LocaleFilter
  import opened Paths
  import opened Formats

  /** What a cell holds when its locale has no text for the key. */
  datatype MissedBehavior = Default | Empty

  /** `MissedBehavior::from_str`: only the exact words `default` and `empty`. */
  function ParseMissedBehavior(s: string): (r: Result<MissedBehavior>)
    ensures r == Success(Default) <==> s == "default"
    ensures r == Success(Empty) <==> s == "empty"
    ensures r.Failure? ==> r.error == "invalid missed behavior"
  {
    match s
    case "default" => Success(Default)
    case "empty" => Success(Empty)
    case _ => Failure("invalid missed behavior")
  }

  /** The exported locales: the known locales filtered by the `-l` tokens, in
      ascending order. */
  function ExportLocales(t: Store, cfg: Config, tokens: seq<string>): (r: seq<string>)
    ensures Ordered(r, false)
    ensures forall l :: l in r <==> l in FilterLocales(KnownLocales(t, cfg.availableLocales), tokens)
  {
    Sorted(FilterLocales(KnownLocales(t, cfg.availableLocales), tokens))
  }

  /** The text a cell gets. */
  function ExportCell(t: Store, defaultLocale: string, missed: MissedBehavior, locale: string, key: string): string {
    match Get(t, locale, key)
    case Some(text) => text
    case None =>
      if missed == Empty then "" else Get(t, defaultLocale, key).GetOr("")
  }

  /** One key's row: a cell per exported locale, in the order given. */
  function ExportRow(t: Store, locales: seq<string>, defaultLocale: string, missed: MissedBehavior, key: string): (row: Row)
    ensures row.key == key && CellLocales(row.cells) == locales
    ensures forall j :: 0 <= j < |locales| ==> row.cells[j].1 == ExportCell(t, defaultLocale, missed, locales[j], key)
  {
    Row(key, seq(|locales|, j requires 0 <= j < |locales| => (locales[j], ExportCell(t, defaultLocale, missed, locales[j], key))))
  }

  /** One row per loaded key, in ascending key order. */
  function ExportRows(t: Store, locales: seq<string>, defaultLocale: string, missed: MissedBehavior): (rows: seq<Row>)
    ensures RowKeys(rows) == Sorted(AllKeys(t))
    ensures forall i :: 0 <= i < |rows| ==> rows[i] == ExportRow(t, locales, defaultLocale, missed, rows[i].key)
  {
    var keys := Sorted(AllKeys(t));
    var rows := seq(|keys|, i requires 0 <= i < |keys| => ExportRow(t, locales, defaultLocale, missed, keys[i]));
    assert RowKeys(rows) == keys;
    rows
  }

  /** `i18n_export` after loading: build the matrix and convert it for the
      output path's extension; a path without one is an error. */
  function Export(t: Store, cfg: Config, tokens: seq<string>, missed: MissedBehavior, output: string): (r: Result<Document>)
    ensures Extension(output).None? ==> r == Failure("unexpected file format")
    ensures Extension(output).Some? ==>
      r == ConvertText(ExportRows(t, ExportLocales(t, cfg, tokens), cfg.defaultLocale, missed), Extension(output).value)
  {
    match Extension(output)
    case None => Failure("unexpected file format")
    case Some(ext) => ConvertText(ExportRows(t, ExportLocales(t, cfg, tokens), cfg.defaultLocale, missed), ext)
  }

  /** Reading a structured export back gives every loaded key under every
      exported locale, with the locale's own text, or else what the policy
      supplies, and nothing for any other (locale, key) pair. */
  lemma ExportReadBack(t: Store, cfg: Config, tokens: seq<string>, missed: MissedBehavior, output: string, l: string, k: string)
    requires Export(t, cfg, tokens, missed, output).Success?
    requires Export(t, cfg, tokens, missed, output).value.Structured?
    ensures var back := ReadStructured(Export(t, cfg, tokens, missed, output).value.root);
      Get(back, l, k) ==
        if k in AllKeys(t) && l in ExportLocales(t, cfg, tokens)
        then Some(ExportCell(t, cfg.defaultLocale, missed, l, k))
        else None
  {
    var locales := ExportLocales(t, cfg, tokens);
    var rows := ExportRows(t, locales, cfg.defaultLocale, missed);
    assert Export(t, cfg, tokens, missed, output).value.root == StructuredRoot(rows);
    RowsFieldAt(t, locales, cfg.defaultLocale, missed, l, k);
  }

  lemma RowsFieldAt(t: Store, locales: seq<string>, defaultLocale: string, missed: MissedBehavior, l: string, k: string)
    requires Ordered(locales, false)
    ensures Field(StructuredRoot(ExportRows(t, locales, defaultLocale, missed)), l, k) ==
      if k in AllKeys(t) && l in locales then Some(ExportCell(t, defaultLocale, missed, l, k)) else None
  {
    var rows := ExportRows(t, locales, defaultLocale, missed);
    var keys := Sorted(AllKeys(t));
    RowsDistinct(t, locales, defaultLocale, missed);
    FieldOutsideCells(rows, l, k);
    if k in AllKeys(t) {
      var i :| 0 <= i < |keys| && keys[i] == k;
      assert RowKeys(rows)[i] == k;
      RowFieldAt(t, locales, defaultLocale, missed, rows, i, l);
    }
  }

  lemma RowsDistinct(t: Store, locales: seq<string>, defaultLocale: string, missed: MissedBehavior)
    ensures DistinctKeys(ExportRows(t, locales, defaultLocale, missed))
  {
    var rows := ExportRows(t, locales, defaultLocale, missed);
    var keys := Sorted(AllKeys(t));
    forall i, j | 0 <= i < j < |rows| ensures rows[i].key != rows[j].key {
      assert RowKeys(rows)[i] == keys[i] && RowKeys(rows)[j] == keys[j];
    }
  }

  lemma RowFieldAt(t: Store, locales: seq<string>, defaultLocale: string, missed: MissedBehavior, rows: seq<Row>, i: nat, l: string)
    requires Ordered(locales, false)
    requires rows == ExportRows(t, locales, defaultLocale, missed)
    requires i < |rows| && DistinctKeys(rows)
    ensures Field(StructuredRoot(rows), l, rows[i].key) ==
      if l in locales then Some(ExportCell(t, defaultLocale, missed, l, rows[i].key)) else None
  {
    var cells := rows[i].cells;
    assert CellLocales(cells) == locales;
    FieldOutsideCells(rows, l, rows[i].key);
    if l in locales {
      var j :| 0 <= j < |locales| && locales[j] == l;
      assert DistinctLocales(cells) by {
        forall a, b | 0 <= a < b < |cells| ensures cells[a].0 != cells[b].0 {
          assert CellLocales(cells)[a] == locales[a] && CellLocales(cells)[b] == locales[b];
        }
      }
      FieldOfCell(rows, i, j);
      assert cells[j].0 == l;
    }
  }

  /** A CSV export is a proper grid: the header lists the exported locales and
      each record holds a key followed by its cells, column by column. */
  lemma ExportCsvGrid(t: Store, cfg: Config, tokens: seq<string>, missed: MissedBehavior, output: string,
                      records: seq<seq<string>>, i: nat, j: nat)
    requires Export(t, cfg, tokens, missed, output) == Success(Csv(records))
    requires i < |AllKeys(t)| && j < |ExportLocales(t, cfg, tokens)|
    ensures |records| == |AllKeys(t)| + 1
    ensures records[0] == ["key"] + ExportLocales(t, cfg, tokens)
    ensures |records[i + 1]| == |ExportLocales(t, cfg, tokens)| + 1
    ensures records[i + 1][0] == Sorted(AllKeys(t))[i]
    ensures records[i + 1][j + 1] ==
      ExportCell(t, cfg.defaultLocale, missed, ExportLocales(t, cfg, tokens)[j], Sorted(AllKeys(t))[i])
  {
    var locales := ExportLocales(t, cfg, tokens);
    var rows := ExportRows(t, locales, cfg.defaultLocale, missed);
    var ext := Extension(output).value;
    assert ConvertText(rows, ext) == Success(Csv(records));
    assert ext == "csv";
    RowsCsvGrid(t, locales, cfg.defaultLocale, missed, i, j);
  }

  lemma RowsCsvGrid(t: Store, locales: seq<string>, defaultLocale: string, missed: MissedBehavior, i: nat, j: nat)
    requires i < |AllKeys(t)| && j < |locales|
    ensures var r := CsvRecords(ExportRows(t, locales, defaultLocale, missed));
      && |r| == |AllKeys(t)| + 1
      && r[0] == ["key"] + locales
      && |r[i + 1]| == |locales| + 1
      && r[i + 1][0] == Sorted(AllKeys(t))[i]
      && r[i + 1][j + 1] == ExportCell(t, defaultLocale, missed, locales[j], Sorted(AllKeys(t))[i])
  {
    var rows := ExportRows(t, locales, defaultLocale, missed);
    var keys := Sorted(AllKeys(t));
    assert |rows| == |keys|;
    assert RowKeys(rows)[i] == keys[i] && RowKeys(rows)[0] == keys[0];
    assert rows[i] == ExportRow(t, locales, defaultLocale, missed, keys[i]);
    assert rows[0] == ExportRow(t, locales, defaultLocale, missed, keys[0]);
    CsvCell(rows, locales, i, j);
    assert CsvRecords(rows)[i + 1] == [rows[i].key] + CellTexts(rows[i].cells);
  }

  /** The documented example: with `en` holding `hello`, `es` declared but
      empty and the `default` policy, the exported `es` cell repeats the
      English text, and under `empty` it is blank. */
  lemma MissingCellExample()
    ensures var t := map["en" := map["hello" := "Hello"]];
      && ExportCell(t, "en", Default, "es", "hello") == "Hello"
      && ExportCell(t, "en", Empty, "es", "hello") == ""
      && ExportCell(t, "en", Empty, "en", "hello") == "Hello"
  {
  }
}
