/** The translation store shared by the command-line tool and the macro:
    locale -> key -> translated text, and the key-major rows the tool writes. */
module LocaleStore {
  import opened Wrappers

  /** One locale's translations: key -> text. */
  type Table = map<string, string>

  /** Every loaded locale's table: locale -> key -> text. */
  type Store = map<string, Table>

  /** The text stored for `key` under `locale`, if any. */
  function Get(t: Store, locale: string, key: string): Option<string> {
    if locale in t && key in t[locale] then Some(t[locale][key]) else None
  }

  /** Two stores hold the same (locale, key, text) triples; they may differ
      only in locales whose table is empty. */
  ghost predicate SameContent(t1: Store, t2: Store) {
    forall l, k :: Get(t1, l, k) == Get(t2, l, k)
  }

  /** The union of the keys of every locale. */
  function AllKeys(t: Store): (r: set<string>)
    ensures forall k :: k in r <==> exists l :: Get(t, l, k).Some?
  {
    var r := set l, k | l in t && k in t[l] :: k;
    assert forall k :: (exists l :: Get(t, l, k).Some?) ==> k in r by {
      forall k | exists l :: Get(t, l, k).Some?
        ensures k in r
      {
        var l :| Get(t, l, k).Some?;
        assert l in t && k in t[l];
      }
    }
    assert forall k :: k in r ==> exists l :: Get(t, l, k).Some? by {
      forall k | k in r
        ensures exists l :: Get(t, l, k).Some?
      {
        var l :| l in t && k in t[l];
        assert Get(t, l, k).Some?;
      }
    }
    r
  }

  /** The declared locales together with the loaded ones. */
  function KnownLocales(t: Store, declared: seq<string>): (r: set<string>)
    ensures forall l :: l in r <==> l in declared || l in t
  {
    (set l | l in declared) + t.Keys
  }

  lemma SameContentSameKeys(t1: Store, t2: Store)
    requires SameContent(t1, t2)
    ensures AllKeys(t1) == AllKeys(t2)
  {
    forall k | k in AllKeys(t1) ensures k in AllKeys(t2) {
      var l :| Get(t1, l, k).Some?;
      assert Get(t2, l, k).Some?;
    }
    forall k | k in AllKeys(t2) ensures k in AllKeys(t1) {
      var l :| Get(t2, l, k).Some?;
      assert Get(t1, l, k).Some?;
    }
  }

  /** One entry of a key-major table: a key and its (locale, text) cells in
      output order (an `IndexMap<String, String>` in the tool). */
  datatype Row = Row(key: string, cells: seq<(string, string)>)

  function RowKeys(rows: seq<Row>): (r: seq<string>)
    ensures |r| == |rows|
    ensures forall i :: 0 <= i < |rows| ==> r[i] == rows[i].key
  {
    seq(|rows|, i requires 0 <= i < |rows| => rows[i].key)
  }

  function CellLocales(cells: seq<(string, string)>): (r: seq<string>)
    ensures |r| == |cells|
    ensures forall j :: 0 <= j < |cells| ==> r[j] == cells[j].0
  {
    seq(|cells|, j requires 0 <= j < |cells| => cells[j].0)
  }

  function CellTexts(cells: seq<(string, string)>): (r: seq<string>)
    ensures |r| == |cells|
    ensures forall j :: 0 <= j < |cells| ==> r[j] == cells[j].1
  {
    seq(|cells|, j requires 0 <= j < |cells| => cells[j].1)
  }

  predicate DistinctKeys(rows: seq<Row>) {
    forall i, j :: 0 <= i < j < |rows| ==> rows[i].key != rows[j].key
  }

  predicate DistinctLocales(cells: seq<(string, string)>) {
    forall i, j :: 0 <= i < j < |cells| ==> cells[i].0 != cells[j].0
  }

  /** The cells inserted one after the other into a map, a later cell for the
      same locale replacing an earlier one. */
  function CellMap(cells: seq<(string, string)>): (m: map<string, string>)
    ensures forall l :: l in m <==> l in CellLocales(cells)
    ensures DistinctLocales(cells) ==> forall j :: 0 <= j < |cells| ==> m[cells[j].0] == cells[j].1
  {
    if cells == [] then map[]
    else
      var init := cells[..|cells| - 1];
      var last := cells[|cells| - 1];
      var m := CellMap(init)[last.0 := last.1];
      CellLocalesSnoc(cells);
      assert DistinctLocales(cells) ==> DistinctLocales(init) && forall j :: 0 <= j < |init| ==> init[j].0 != last.0;
      assert forall j :: 0 <= j < |init| ==> cells[j] == init[j];
      m
  }

  lemma CellLocalesSnoc(cells: seq<(string, string)>)
    requires cells != []
    ensures CellLocales(cells) == CellLocales(cells[..|cells| - 1]) + [cells[|cells| - 1].0]
  {
  }
}
