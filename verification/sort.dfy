/** The sort command: one locale file's locale -> key -> text table rebuilt
    key-major, keys and locales in ascending (or descending) order, and the
    path the result is written to. */
module SortCommand {
  import opened Wrappers
  import opened Text
  import opened LocaleStore
  import opened StringOrder
  import opened Paths
  import opened Formats

  /** A key's cells: for each locale in the order given, its text when it has
      one; a locale without a text for the key gets no cell. */
  function SortCells(t: Store, locales: seq<string>, key: string): (cells: seq<(string, string)>)
    ensures forall j :: 0 <= j < |cells| ==> Get(t, cells[j].0, key) == Some(cells[j].1)
    ensures forall l :: l in CellLocales(cells) <==> l in locales && Get(t, l, key).Some?
  {
    if locales == [] then []
    else
      var rest := SortCells(t, locales[1..], key);
      var found := Get(t, locales[0], key);
      var head := if found.Some? then [(locales[0], found.value)] else [];
      assert CellLocales(head + rest) == CellLocales(head) + CellLocales(rest);
      assert forall l :: l in locales <==> l == locales[0] || l in locales[1..];
      assert CellLocales(head) == if found.Some? then [locales[0]] else [];
      head + rest
  }

  /** The cells keep the order of the locales they are drawn from. */
  lemma {:induction false} SortCellsOrdered(t: Store, locales: seq<string>, key: string, reverse: bool)
    requires Ordered(locales, reverse)
    ensures Ordered(CellLocales(SortCells(t, locales, key)), reverse)
  {
    if locales != [] {
      OrderedTail(locales, reverse);
      SortCellsOrdered(t, locales[1..], key, reverse);
      var rest := SortCells(t, locales[1..], key);
      var found := Get(t, locales[0], key);
      if found.Some? {
        CellsConsOrdered(locales, found.value, rest, reverse);
      }
    }
  }

  lemma CellsConsOrdered(locales: seq<string>, text: string, rest: seq<(string, string)>, reverse: bool)
    requires locales != [] && Ordered(locales, reverse)
    requires Ordered(CellLocales(rest), reverse)
    requires forall l :: l in CellLocales(rest) ==> l in locales[1..]
    ensures Ordered(CellLocales([(locales[0], text)] + rest), reverse)
  {
    var tail := CellLocales(rest);
    OrderedTail(locales, reverse);
    forall j | 0 <= j < |tail| ensures Precedes(locales[0], tail[j], reverse) {
      assert tail[j] in tail;
      var m :| 0 <= m < |locales[1..]| && locales[1..][m] == tail[j];
    }
    OrderedCons(locales[0], tail, reverse);
    assert CellLocales([(locales[0], text)] + rest) == [locales[0]] + tail;
  }

  /** The locales a file is sorted over: the declared ones and the file's own,
      in order. */
  function SortLocales(t: Store, available: seq<string>, reverse: bool): (r: seq<string>)
    ensures Ordered(r, reverse)
    ensures forall l :: l in r <==> l in KnownLocales(t, available)
  {
    OrderedElements(KnownLocales(t, available), reverse)
  }

  /** A key of the file has a text under some locale, so its row is never
      empty. */
  lemma SortCellsNotEmpty(t: Store, locales: seq<string>, key: string)
    requires key in AllKeys(t)
    requires forall l :: l in t ==> l in locales
    ensures SortCells(t, locales, key) != []
  {
    var l :| Get(t, l, key).Some?;
    assert l in CellLocales(SortCells(t, locales, key));
  }

  /** A row per key in the order given, with its cells over `locales`. */
  function RowsOver(t: Store, locales: seq<string>, keys: seq<string>): (rows: seq<Row>)
    ensures RowKeys(rows) == keys
    ensures forall i :: 0 <= i < |rows| ==> rows[i].cells == SortCells(t, locales, rows[i].key)
  {
    var rows := seq(|keys|, i requires 0 <= i < |keys| => Row(keys[i], SortCells(t, locales, keys[i])));
    assert RowKeys(rows) == keys;
    rows
  }

  /** The rebuilt table: every key of the file in order, each with its cells
      over the sort locales in the same order. */
  function SortTable(t: Store, available: seq<string>, reverse: bool): (rows: seq<Row>)
    ensures Ordered(RowKeys(rows), reverse)
    ensures forall k :: k in RowKeys(rows) <==> k in AllKeys(t)
    ensures forall i :: 0 <= i < |rows| ==> rows[i].cells == SortCells(t, SortLocales(t, available, reverse), rows[i].key)
  {
    RowsOver(t, SortLocales(t, available, reverse), OrderedElements(AllKeys(t), reverse))
  }

  /** Within every row the locales are in the same order as the keys, and no
      row is empty: sorting adds no empty cells and no empty keys. */
  lemma SortRowsOrdered(t: Store, available: seq<string>, reverse: bool, i: nat)
    requires i < |SortTable(t, available, reverse)|
    ensures var row := SortTable(t, available, reverse)[i];
      Ordered(CellLocales(row.cells), reverse) && row.cells != []
  {
    var rows := SortTable(t, available, reverse);
    var locales := SortLocales(t, available, reverse);
    assert RowKeys(rows)[i] == rows[i].key;
    SortCellsOrdered(t, locales, rows[i].key, reverse);
    assert forall l :: l in t ==> l in locales;
    SortCellsNotEmpty(t, locales, rows[i].key);
  }

  /** Written out as a structured document and read back, the rebuilt table
      holds exactly the file's (locale, key, text) triples: nothing lost,
      nothing defaulted, nothing added. */
  lemma SortKeepsContent(t: Store, available: seq<string>, reverse: bool)
    ensures SameContent(ReadStructured(StructuredRoot(SortTable(t, available, reverse))), t)
  {
    var rows := SortTable(t, available, reverse);
    assert DistinctKeys(rows) by {
      forall i, j | 0 <= i < j < |rows| ensures rows[i].key != rows[j].key {
        assert RowKeys(rows)[i] == rows[i].key && RowKeys(rows)[j] == rows[j].key;
      }
    }
    forall l, k ensures Get(ReadStructured(StructuredRoot(rows)), l, k) == Get(t, l, k) {
      SortFieldAt(t, available, reverse, rows, l, k);
    }
  }

  lemma SortFieldAt(t: Store, available: seq<string>, reverse: bool, rows: seq<Row>, l: string, k: string)
    requires rows == SortTable(t, available, reverse)
    requires DistinctKeys(rows)
    ensures Field(StructuredRoot(rows), l, k) == Get(t, l, k)
  {
    FieldOutsideCells(rows, l, k);
    if k in AllKeys(t) {
      var i :| 0 <= i < |rows| && RowKeys(rows)[i] == k;
      SortRowsOrdered(t, available, reverse, i);
      OrderedCellsDistinct(rows[i].cells, reverse);
      SortFieldInRow(t, available, reverse, rows, i, l);
    }
  }

  lemma SortFieldInRow(t: Store, available: seq<string>, reverse: bool, rows: seq<Row>, i: nat, l: string)
    requires rows == SortTable(t, available, reverse)
    requires i < |rows|
    requires DistinctKeys(rows) && DistinctLocales(rows[i].cells)
    ensures Field(StructuredRoot(rows), l, rows[i].key) == Get(t, l, rows[i].key)
  {
    var k := rows[i].key;
    var cells := rows[i].cells;
    assert cells == SortCells(t, SortLocales(t, available, reverse), k);
    FieldOutsideCells(rows, l, k);
    assert Get(t, l, k).Some? ==> l in t;
    if l in CellLocales(cells) {
      var j :| 0 <= j < |cells| && CellLocales(cells)[j] == l;
      FieldOfCell(rows, i, j);
    }
  }

  lemma OrderedCellsDistinct(cells: seq<(string, string)>, reverse: bool)
    requires Ordered(CellLocales(cells), reverse)
    ensures DistinctLocales(cells)
  {
    forall a, b | 0 <= a < b < |cells| ensures cells[a].0 != cells[b].0 {
      assert CellLocales(cells)[a] == cells[a].0 && CellLocales(cells)[b] == cells[b].0;
    }
  }

  /** A key's cells depend only on the triples, given locale lists in the same
      order that both cover every loaded locale. */
  lemma SortCellsRespectContent(t1: Store, t2: Store, l1: seq<string>, l2: seq<string>, key: string, reverse: bool)
    requires SameContent(t1, t2)
    requires Ordered(l1, reverse) && Ordered(l2, reverse)
    requires forall l :: l in t1 ==> l in l1
    requires forall l :: l in t2 ==> l in l2
    ensures SortCells(t1, l1, key) == SortCells(t2, l2, key)
  {
    var c1 := SortCells(t1, l1, key);
    var c2 := SortCells(t2, l2, key);
    SortCellsOrdered(t1, l1, key, reverse);
    SortCellsOrdered(t2, l2, key, reverse);
    forall l ensures l in CellLocales(c1) <==> l in CellLocales(c2) {
      assert Get(t1, l, key) == Get(t2, l, key);
    }
    OrderedUnique(CellLocales(c1), CellLocales(c2), reverse);
    SameCells(t1, t2, key, c1, c2);
  }

  /** The rebuilt table depends only on the file's triples, not on which
      locales happen to be loaded with an empty table. */
  lemma SortRespectsContent(t1: Store, t2: Store, available: seq<string>, reverse: bool)
    requires SameContent(t1, t2)
    ensures SortTable(t1, available, reverse) == SortTable(t2, available, reverse)
  {
    SameContentSameKeys(t1, t2);
    var r1 := SortTable(t1, available, reverse);
    var r2 := SortTable(t2, available, reverse);
    var l1 := SortLocales(t1, available, reverse);
    var l2 := SortLocales(t2, available, reverse);
    SortLocalesCover(t1, available, reverse);
    SortLocalesCover(t2, available, reverse);
    OrderedUnique(RowKeys(r1), RowKeys(r2), reverse);
    forall i | 0 <= i < |r1| ensures r1[i] == r2[i] {
      assert RowKeys(r1)[i] == r1[i].key && RowKeys(r2)[i] == r2[i].key;
      SortCellsRespectContent(t1, t2, l1, l2, r1[i].key, reverse);
    }
  }

  lemma SortLocalesCover(t: Store, available: seq<string>, reverse: bool)
    ensures forall l :: l in t ==> l in SortLocales(t, available, reverse)
  {
  }

  lemma SameCells(t1: Store, t2: Store, key: string, c1: seq<(string, string)>, c2: seq<(string, string)>)
    requires SameContent(t1, t2)
    requires CellLocales(c1) == CellLocales(c2)
    requires forall j :: 0 <= j < |c1| ==> Get(t1, c1[j].0, key) == Some(c1[j].1)
    requires forall j :: 0 <= j < |c2| ==> Get(t2, c2[j].0, key) == Some(c2[j].1)
    ensures c1 == c2
  {
    forall j | 0 <= j < |c1| ensures c1[j] == c2[j] {
      assert CellLocales(c1)[j] == CellLocales(c2)[j];
      assert Get(t1, c1[j].0, key) == Get(t2, c2[j].0, key);
    }
  }

  /** Sorting a sorted file again gives the same table. */
  lemma SortIdempotent(t: Store, available: seq<string>, reverse: bool)
    ensures var again := ReadStructured(StructuredRoot(SortTable(t, available, reverse)));
      SortTable(again, available, reverse) == SortTable(t, available, reverse)
  {
    var again := ReadStructured(StructuredRoot(SortTable(t, available, reverse)));
    SortKeepsContent(t, available, reverse);
    SortRespectsContent(again, t, available, reverse);
  }

  /** What happens to one file found under the locales directory. */
  datatype SortOutcome =
    | Skipped
    | Panicked
    | Failed(error: string)
    | Written(path: string, document: Document)

  /** The name the sorted file is written to, next to the original. */
  function SortedPath(entry: string, stem: string, ext: string): string {
    DirPrefix(entry) + (stem + "-sorted") + "." + ext
  }

  /** One iteration of `i18n_sort`'s loop. Outside in-place mode a path that
      contains `-sorted` anywhere is skipped; a path without an extension is
      the panic of `unwrap`. Otherwise the sorted table is converted for the
      file's extension and written, or the conversion error is returned.
      `SortFile` takes any path; `GlobbedEntryIsWrittenOrSkipped` shows that the
      panic, the csv branch and the conversion error cannot happen for the
      paths the directory walk yields. */
  function SortFile(entry: string, t: Store, available: seq<string>, reverse: bool, inplace: bool): (r: SortOutcome)
    ensures r.Skipped? <==> !inplace && Contains(entry, "-sorted")
    ensures r.Panicked? <==> !(!inplace && Contains(entry, "-sorted")) && Extension(entry).None?
    ensures r.Written? && inplace ==> r.path == entry
    ensures r.Written? && !inplace ==> r.path == SortedPath(entry, FileStem(entry).value, Extension(entry).value)
    ensures r.Written? ==> ConvertText(SortTable(t, available, reverse), Extension(entry).value) == Success(r.document)
    ensures r.Failed? ==> Extension(entry).Some?
    ensures r.Failed? ==> ConvertText(SortTable(t, available, reverse), Extension(entry).value) == Failure(r.error)
  {
    if !inplace && Contains(entry, "-sorted") then Skipped
    else
      match Extension(entry)
      case None => Panicked
      case Some(ext) =>
        var rows := SortTable(t, available, reverse);
        var path := if inplace then entry else SortedPath(entry, FileStem(entry).value, ext);
        match ConvertText(rows, ext)
        case Failure(e) => Failed(e)
        case Success(doc) => Written(path, doc)
  }

  /** The paths `i18n_sort`'s glob pattern yields: those ending in one of the
      four structured extensions. */
  predicate Globbed(entry: string) {
    Extension(entry).Some? && Extension(entry).value in ["yml", "yaml", "json", "toml"]
  }

  /** For a path the directory walk yields, the file is skipped or its sorted
      table is written as a structured document; the panic, the csv branch
      and the conversion error are unreachable. */
  lemma GlobbedEntryIsWrittenOrSkipped(entry: string, t: Store, available: seq<string>, reverse: bool, inplace: bool)
    requires Globbed(entry)
    ensures var r := SortFile(entry, t, available, reverse, inplace);
      || r.Skipped?
      || (r.Written? && r.document.Structured? && r.document.root == StructuredRoot(SortTable(t, available, reverse)))
  {
    var ext := Extension(entry).value;
    assert ext != "csv";
  }

  /** The sorted file keeps the extension, its stem gains `-sorted`, and a
      second run outside in-place mode skips it. */
  lemma SortedPathIsSkipped(entry: string, t: Store, available: seq<string>, reverse: bool)
    requires SortFile(entry, t, available, reverse, false).Written?
    ensures var out := SortFile(entry, t, available, reverse, false).path;
      && Extension(out) == Extension(entry)
      && FileStem(out) == Some(FileStem(entry).value + "-sorted")
      && forall t', available', reverse' :: SortFile(out, t', available', reverse', false) == Skipped
  {
    var r := SortFile(entry, t, available, reverse, false);
    assert Extension(entry).Some?;
    assert r.path == SortedPath(entry, FileStem(entry).value, Extension(entry).value);
    SortedNameOf(entry);
  }

  lemma SortedNameOf(entry: string)
    requires Extension(entry).Some?
    ensures var out := SortedPath(entry, FileStem(entry).value, Extension(entry).value);
      && Extension(out) == Extension(entry)
      && FileStem(out) == Some(FileStem(entry).value + "-sorted")
      && forall t', available', reverse' :: SortFile(out, t', available', reverse', false) == Skipped
  {
    var stem := FileStem(entry).value;
    var ext := Extension(entry).value;
    var dir := DirPrefix(entry);
    MarkedStem(stem);
    ExtensionOfName(dir, stem + "-sorted", ext);
    MarkerOccurs(dir, stem, ext);
  }

  lemma MarkedStem(stem: string)
    requires '/' !in stem
    ensures stem + "-sorted" != [] && stem + "-sorted" != "." && '/' !in stem + "-sorted"
  {
    var m := stem + "-sorted";
    assert |m| > 1;
    forall i | 0 <= i < |m| ensures m[i] != '/' {
      if i < |stem| { assert m[i] == stem[i]; } else { assert m[i] == "-sorted"[i - |stem|]; }
    }
  }

  /** A path whose stem carries the marker is skipped by a later run. */
  lemma MarkerOccurs(dir: string, stem: string, ext: string)
    ensures forall t: Store, available: seq<string>, reverse: bool ::
      SortFile(dir + (stem + "-sorted") + "." + ext, t, available, reverse, false) == Skipped
  {
    var out := dir + (stem + "-sorted") + "." + ext;
    var at := |dir| + |stem|;
    assert out[at..at + 7] == "-sorted";
    assert OccursAt(out, "-sorted", at);
    assert Contains(out, "-sorted");
  }

  /** A directory whose name holds `-sorted` hides every file under it, not
      only the files a previous run wrote. */
  lemma SortedDirectorySkipped(dir: string, name: string, t: Store, available: seq<string>, reverse: bool)
    requires Contains(dir, "-sorted")
    ensures SortFile(dir + "/" + name, t, available, reverse, false) == Skipped
  {
    var i := IndexOf(dir, "-sorted").value;
    assert (dir + "/" + name)[i..i + 7] == dir[i..i + 7];
    assert OccursAt(dir + "/" + name, "-sorted", i);
  }
}
