/** The extract command's own logic: parsing `-t "key => text"` arguments,
    merging them into the message table, and ordering the table for output. */
module ExtractCommand {
  import opened Wrappers
  import opened Text
  import opened Settings

  /** A source position where a text was found. */
  datatype Location = Location(file: string, line: nat, column: nat)

  /** One entry of the message table. The source calls `text` the message's
      `key`: it is the literal text, while the table is keyed by the lookup key. */
  datatype Message = Message(text: string, index: nat, minifyKey: bool, locations: seq<Location>)

  type MessageTable = map<string, Message>

  /** `remove_quotes`: drops one leading and one trailing `"` when present.
      `None` stands for the panic of slicing `s[1..0]` on the one-character
      input `"`, the only input where the two cuts cross. */
  function RemoveQuotes(s: string): (r: Option<string>)
    ensures r.None? <==> s == "\""
    ensures r.Some? ==> s == (if StartsWith(s, "\"") then "\"" else "") + r.value + (if EndsWith(s, "\"") then "\"" else "")
  {
    var start := if StartsWith(s, "\"") then 1 else 0;
    var end := if EndsWith(s, "\"") then |s| - 1 else |s|;
    if start <= end then
      var r := s[start..end];
      assert s == s[..start] + r + s[end..];
      Some(r)
    else None
  }

  /** `translate_value_parser`: without `=>` the whole argument is both key and
      text, untrimmed; otherwise it is split at the first `=>` and each side is
      trimmed and unquoted on its own. `None` is the panic of `RemoveQuotes`;
      there is no error result. */
  function TranslateValueParser(s: string): (r: Option<(string, string)>)
    ensures IndexOf(s, "=>").None? ==> r == Some((s, s))
    ensures IndexOf(s, "=>").Some? ==>
      var i := IndexOf(s, "=>").value;
      (r.None? <==> Trim(s[..i]) == "\"" || Trim(s[i + 2..]) == "\"")
  {
    match IndexOf(s, "=>")
    case None => Some((s, s))
    case Some(i) => UnquoteSides(Trim(s[..i]), Trim(s[i + 2..]))
  }

  /** Both trimmed sides unquoted; `None` when either is the lone `"`. */
  function UnquoteSides(left: string, right: string): (r: Option<(string, string)>)
    ensures r.None? <==> left == "\"" || right == "\""
    ensures r.Some? ==> r.value == (RemoveQuotes(left).value, RemoveQuotes(right).value)
  {
    var key := RemoveQuotes(left);
    var msg := RemoveQuotes(right);
    if key.Some? && msg.Some? then Some((key.value, msg.value)) else None
  }

  predicate NoQuoteAtEnds(s: string) {
    !StartsWith(s, "\"") && !EndsWith(s, "\"")
  }

  /** An argument written as `key => text`, with any whitespace around the arrow
      and optional quotes around either side, parses back to `(key, text)`. */
  lemma {:induction false} TranslateValueParserRoundTrip(
    key: string, text: string, pad1: string, pad2: string, quoteKey: bool, quoteText: bool)
    requires !Contains(key, "=>") && Unpadded(key) && NoQuoteAtEnds(key)
    requires Unpadded(text) && NoQuoteAtEnds(text)
    requires AllWhitespace(pad1) && AllWhitespace(pad2)
    ensures var q1 := if quoteKey then "\"" else "";
            var q2 := if quoteText then "\"" else "";
            TranslateValueParser(q1 + key + q1 + pad1 + "=>" + pad2 + q2 + text + q2) == Some((key, text))
  {
    var q1 := if quoteKey then "\"" else "";
    var q2 := if quoteText then "\"" else "";
    var left := q1 + key + q1;
    var right := q2 + text + q2;
    var s := q1 + key + q1 + pad1 + "=>" + pad2 + q2 + text + q2;
    assert s == (left + pad1) + "=>" + (pad2 + right);
    FirstArrow(left + pad1, pad2 + right, key, q1, pad1);
    QuotedUnpadded(key, q1);
    QuotedUnpadded(text, q2);
    TrimRight(left, pad1);
    TrimLeft(pad2, right);
    UnquoteQuoted(key, q1);
    UnquoteQuoted(text, q2);
    ParseAtArrow(left + pad1, pad2 + right);
  }

  /** With the first `=>` right after `a`, each side is trimmed and unquoted. */
  lemma ParseAtArrow(a: string, b: string)
    requires IndexOf(a + "=>" + b, "=>") == Some(|a|)
    ensures RemoveQuotes(Trim(a)).Some? && RemoveQuotes(Trim(b)).Some? ==>
      TranslateValueParser(a + "=>" + b) == Some((RemoveQuotes(Trim(a)).value, RemoveQuotes(Trim(b)).value))
  {
    var s := a + "=>" + b;
    assert s[..|a|] == a;
    assert s[|a| + 2..] == b;
  }

  lemma TrimRight(x: string, pad: string)
    requires Unpadded(x) && AllWhitespace(pad)
    ensures Trim(x + pad) == x
  {
    var s := x + pad;
    if x == [] {
      assert s == pad + [];
      TrimStartOfPadded(pad, []);
    } else {
      assert s[0] == x[0];
      assert TrimStart(s) == s;
      TrimEndOfPadded(x, pad);
    }
  }

  lemma TrimLeft(pad: string, x: string)
    requires Unpadded(x) && AllWhitespace(pad)
    ensures Trim(pad + x) == x
  {
    TrimOfPadded(pad, x, []);
    assert pad + x + [] == pad + x;
  }

  lemma QuotedUnpadded(x: string, q: string)
    requires q == "" || q == "\""
    requires Unpadded(x)
    ensures Unpadded(q + x + q)
  {
    if q != "" {
      assert (q + x + q)[0] == '"';
      assert (q + x + q)[|q + x + q| - 1] == '"';
    } else {
      assert q + x + q == x;
    }
  }

  lemma UnquoteQuoted(x: string, q: string)
    requires q == "" || q == "\""
    requires NoQuoteAtEnds(x)
    ensures RemoveQuotes(q + x + q) == Some(x)
  {
    var s := q + x + q;
    var r := RemoveQuotes(s);
    if q == "" {
      assert s == x;
    } else {
      assert StartsWith(s, "\"") && EndsWith(s, "\"");
      assert s[1..|s| - 1] == x;
    }
  }

  /** The first `=>` of `left + "=>" + right` is the one after `left`, when
      `left` is the (possibly quoted) key and some whitespace: no `=>` lies
      inside the key, and none can start in it and end outside it. */
  lemma FirstArrow(left: string, right: string, key: string, q: string, pad: string)
    requires q == "" || q == "\""
    requires left == q + key + q + pad
    requires !Contains(key, "=>") && AllWhitespace(pad)
    ensures IndexOf(left + "=>" + right, "=>") == Some(|left|)
  {
    var s := left + "=>" + right;
    assert OccursAt(s, "=>", |left|) by {
      assert s[|left|..|left| + 2] == "=>";
    }
    forall j | 0 <= j < |left| ensures !OccursAt(s, "=>", j) {
      NoArrowBefore(s, left, key, q, pad, j);
    }
  }

  /** No `=>` starts at position `j` of the key-and-padding part. */
  lemma NoArrowBefore(s: string, left: string, key: string, q: string, pad: string, j: int)
    requires q == "" || q == "\""
    requires left == q + key + q + pad
    requires !Contains(key, "=>") && AllWhitespace(pad)
    requires |left| + 2 <= |s| && s[|left|] == '=' && s[..|left|] == left
    requires 0 <= j < |left|
    ensures !OccursAt(s, "=>", j)
  {
    assert s[j] == left[j];
    if |q| <= j < |q| + |key| {
      var k := j - |q|;
      assert left[j] == key[k];
      if j + 1 < |q| + |key| {
        assert left[j + 1] == key[k + 1] && s[j + 1] == left[j + 1];
        assert !OccursAt(key, "=>", k);
        assert s[j..j + 2] == key[k..k + 2];
      } else {
        assert s[j + 1] != '>' by {
          if j + 1 < |left| {
            assert s[j + 1] == left[j + 1];
            QuoteOrPadding(left, key, q, pad, j + 1);
          }
        }
        assert s[j..j + 2][1] == s[j + 1];
      }
    } else {
      QuoteOrPadding(left, key, q, pad, j);
      assert s[j..j + 2][0] == s[j];
    }
  }

  /** Outside the key, the key-and-padding part holds only quotes and whitespace. */
  lemma QuoteOrPadding(left: string, key: string, q: string, pad: string, j: int)
    requires q == "" || q == "\""
    requires left == q + key + q + pad
    requires AllWhitespace(pad)
    requires 0 <= j < |left| && !(|q| <= j < |q| + |key|)
    ensures left[j] == '"' || IsWhitespace(left[j])
  {
    if j >= |q| + |key| + |q| {
      assert left[j] == pad[j - |q| - |key| - |q|];
    }
  }

  /** The key each manual pair is stored under, in argument order. */
  function KeysOf(list: seq<(string, string)>, m: MinifySettings, hash: MinifyFn): (keys: seq<string>)
    ensures |keys| == |list|
    ensures forall i :: 0 <= i < |list| ==> keys[i] == KeyFor(list[i].0, m, hash)
  {
    if list == [] then []
    else
      var rest := KeysOf(list[1..], m, hash);
      assert forall i :: 1 <= i < |list| ==> list[i] == list[1..][i - 1];
      [KeyFor(list[0].0, m, hash)] + rest
  }

  /** One manual pair added: stored under its key unless the key is present. */
  function AddOne(item: (string, string), results: MessageTable, m: MinifySettings, hash: MinifyFn): (r: MessageTable)
    ensures forall k :: k in results ==> k in r && r[k] == results[k]
    ensures forall k :: k in r <==> k in results || k == KeyFor(item.0, m, hash)
    ensures KeyFor(item.0, m, hash) !in results ==>
      r[KeyFor(item.0, m, hash)] == Message(item.1, |results|, m.enabled, [])
  {
    var key := KeyFor(item.0, m, hash);
    if key in results then results
    else results[key := Message(item.1, |results|, m.enabled, [])]
  }

  /** `add_translations`: each manual `(text, translation)` pair is stored under
      its key (the text, or its hash when minification is on) unless that key is
      already present; a new entry's index is the table size before insertion. */
  function AddTranslations(list: seq<(string, string)>, results: MessageTable, m: MinifySettings, hash: MinifyFn): (r: MessageTable)
    ensures forall k :: k in results ==> k in r && r[k] == results[k]
    ensures |results| <= |r|
    ensures forall k :: k in r <==> k in results || k in KeysOf(list, m, hash)
    ensures forall k :: k in r && k !in results ==>
      && r[k].locations == [] && r[k].minifyKey == m.enabled
      && |results| <= r[k].index < |r|
    decreases |list|
  {
    if list == [] then results
    else
      var key := KeyFor(list[0].0, m, hash);
      var next := AddOne(list[0], results, m, hash);
      assert KeysOf(list, m, hash) == [key] + KeysOf(list[1..], m, hash);
      var r := AddTranslations(list[1..], next, m, hash);
      assert |results| <= |next| by { SubsetCard(results.Keys, next.Keys); }
      assert |next| <= |r| by { SubsetCard(next.Keys, r.Keys); }
      assert key !in results ==> |results| < |next| by {
        if key !in results { assert next.Keys == results.Keys + {key}; }
      }
      forall k | k in r && k !in results
        ensures r[k].locations == [] && r[k].minifyKey == m.enabled && |results| <= r[k].index < |r|
      {
        if k in next {
          assert k == key && r[k] == next[k];
        }
      }
      r
  }

  lemma SubsetCard<T>(a: set<T>, b: set<T>)
    requires a <= b
    ensures |a| <= |b|
  {
    assert b == a + (b - a);
  }

  /** The indices of the table are exactly 0 .. |table| - 1, each used once. */
  predicate DenseIndices(t: MessageTable) {
    && (forall k :: k in t ==> t[k].index < |t|)
    && (forall k, k' :: k in t && k' in t && k != k' ==> t[k].index != t[k'].index)
  }

  /** Adding manual translations keeps the indices dense: the new entries take
      the next indices in order of first appearance. */
  lemma {:induction false} AddTranslationsKeepsIndicesDense(
    list: seq<(string, string)>, results: MessageTable, m: MinifySettings, hash: MinifyFn)
    requires DenseIndices(results)
    ensures DenseIndices(AddTranslations(list, results, m, hash))
    decreases |list|
  {
    if list != [] {
      var next := AddOne(list[0], results, m, hash);
      assert DenseIndices(next);
      AddTranslationsKeepsIndicesDense(list[1..], next, m, hash);
    }
  }

  /** The first pair that produces a new key decides its translation; later
      pairs with the same key change nothing. */
  lemma {:induction false} FirstPairWins(
    list: seq<(string, string)>, results: MessageTable, m: MinifySettings, hash: MinifyFn, j: nat)
    requires j < |list|
    requires KeyFor(list[j].0, m, hash) !in results
    requires forall i :: 0 <= i < j ==> KeyFor(list[i].0, m, hash) != KeyFor(list[j].0, m, hash)
    ensures AddTranslations(list, results, m, hash)[KeyFor(list[j].0, m, hash)].text == list[j].1
    decreases j
  {
    var kj := KeyFor(list[j].0, m, hash);
    var next := AddOne(list[0], results, m, hash);
    var tail := list[1..];
    if j == 0 {
      assert kj in next && next[kj].text == list[0].1;
      AddTranslationsStep(list, results, m, hash);
      assert AddTranslations(tail, next, m, hash)[kj] == next[kj];
    } else {
      assert KeyFor(list[0].0, m, hash) != kj && kj !in results;
      assert kj in next <==> kj in results || kj == KeyFor(list[0].0, m, hash);
      assert tail[j - 1] == list[j];
      forall i | 0 <= i < j - 1 ensures KeyFor(tail[i].0, m, hash) != kj {
        assert tail[i] == list[i + 1];
      }
      FirstPairWins(tail, next, m, hash, j - 1);
      AddTranslationsStep(list, results, m, hash);
    }
  }

  /** The pairs are merged in argument order: merging `a + b` is merging `a`
      and then `b` into the result. */
  lemma {:induction false} AddTranslationsAppend(
    a: seq<(string, string)>, b: seq<(string, string)>, results: MessageTable, m: MinifySettings, hash: MinifyFn)
    ensures AddTranslations(a + b, results, m, hash) == AddTranslations(b, AddTranslations(a, results, m, hash), m, hash)
    decreases |a|
  {
    if a == [] {
      assert a + b == b;
    } else {
      var next := AddOne(a[0], results, m, hash);
      assert (a + b)[0] == a[0] && (a + b)[1..] == a[1..] + b;
      AddTranslationsStep(a + b, results, m, hash);
      AddTranslationsStep(a, results, m, hash);
      AddTranslationsAppend(a[1..], b, next, m, hash);
    }
  }

  lemma AddTranslationsStep(list: seq<(string, string)>, results: MessageTable, m: MinifySettings, hash: MinifyFn)
    requires list != []
    ensures AddTranslations(list, results, m, hash) == AddTranslations(list[1..], AddOne(list[0], results, m, hash), m, hash)
  {
  }

  /** Entries ordered by their index, as `sort_by_key(|m| m.index)` leaves them. */
  predicate IndexOrdered(s: seq<(string, Message)>) {
    forall i, j :: 0 <= i < j < |s| ==> s[i].1.index <= s[j].1.index
  }

  /** `e` placed before the first entry whose index is not smaller. */
  function InsertByIndex(e: (string, Message), s: seq<(string, Message)>): (r: seq<(string, Message)>)
    ensures |r| == |s| + 1
    ensures forall x :: x in r <==> x == e || x in s
  {
    if s == [] || e.1.index <= s[0].1.index then [e] + s
    else
      var rest := InsertByIndex(e, s[1..]);
      assert s == [s[0]] + s[1..];
      [s[0]] + rest
  }

  lemma {:induction false} InsertByIndexOrdered(e: (string, Message), s: seq<(string, Message)>)
    requires IndexOrdered(s)
    ensures IndexOrdered(InsertByIndex(e, s))
  {
    if s != [] && e.1.index > s[0].1.index {
      var rest := InsertByIndex(e, s[1..]);
      InsertByIndexOrdered(e, s[1..]);
      forall j | 0 <= j < |rest| ensures s[0].1.index <= rest[j].1.index {
        assert rest[j] in rest;
        if rest[j] != e {
          var k :| 0 <= k < |s[1..]| && s[1..][k] == rest[j];
          assert s[k + 1] == rest[j];
        }
      }
    }
  }

  lemma {:induction false} InsertByIndexDistinct(e: (string, Message), s: seq<(string, Message)>)
    requires forall i :: 0 <= i < |s| ==> s[i].0 != e.0
    requires forall i, j :: 0 <= i < j < |s| ==> s[i].0 != s[j].0
    ensures forall i, j :: 0 <= i < j < |InsertByIndex(e, s)| ==> InsertByIndex(e, s)[i].0 != InsertByIndex(e, s)[j].0
  {
    if s != [] && e.1.index > s[0].1.index {
      var rest := InsertByIndex(e, s[1..]);
      InsertByIndexDistinct(e, s[1..]);
      forall j | 0 <= j < |rest| ensures s[0].0 != rest[j].0 {
        assert rest[j] in rest;
        if rest[j] != e {
          var k :| 0 <= k < |s[1..]| && s[1..][k] == rest[j];
          assert s[k + 1] == rest[j];
        }
      }
    }
  }

  /** The message table as the list written out: every entry once, in index
      order. */
  method OrderedMessages(t: MessageTable) returns (r: seq<(string, Message)>)
    ensures |r| == |t|
    ensures forall i :: 0 <= i < |r| ==> r[i].0 in t && r[i].1 == t[r[i].0]
    ensures forall k :: k in t ==> (k, t[k]) in r
    ensures forall i, j :: 0 <= i < j < |r| ==> r[i].0 != r[j].0
    ensures IndexOrdered(r)
  {
    r := [];
    var todo := t.Keys;
    while todo != {}
      invariant todo <= t.Keys
      invariant |r| + |todo| == |t|
      invariant forall i :: 0 <= i < |r| ==> r[i].0 in t && r[i].0 !in todo && r[i].1 == t[r[i].0]
      invariant forall k :: k in t && k !in todo ==> (k, t[k]) in r
      invariant forall i, j :: 0 <= i < j < |r| ==> r[i].0 != r[j].0
      invariant IndexOrdered(r)
      decreases |todo|
    {
      var k :| k in todo;
      var r' := InsertByIndex((k, t[k]), r);
      InsertByIndexOrdered((k, t[k]), r);
      InsertByIndexDistinct((k, t[k]), r);
      forall i | 0 <= i < |r'| ensures r'[i].0 in t && r'[i].0 !in todo - {k} && r'[i].1 == t[r'[i].0] {
        assert r'[i] in r';
      }
      r := r';
      todo := todo - {k};
    }
  }

  /** With dense indices the written list puts the message with index `i` at
      position `i`, so manual translations follow the scanned ones in the order
      they were given. */
  lemma {:induction false} DenseOrderIsPosition(t: MessageTable, r: seq<(string, Message)>)
    requires DenseIndices(t)
    requires |r| == |t|
    requires forall i :: 0 <= i < |r| ==> r[i].0 in t && r[i].1 == t[r[i].0]
    requires forall i, j :: 0 <= i < j < |r| ==> r[i].0 != r[j].0
    requires IndexOrdered(r)
    ensures forall i :: 0 <= i < |r| ==> r[i].1.index == i
  {
    var idx := seq(|r|, i requires 0 <= i < |r| => r[i].1.index);
    forall i | 0 <= i < |r| - 1 ensures idx[i] < idx[i + 1] {
      assert r[i].0 != r[i + 1].0;
      assert r[i].1.index <= r[i + 1].1.index;
    }
    forall i | 0 <= i < |r| ensures 0 <= idx[i] < |r| {
      assert t[r[i].0].index < |t|;
    }
    StrictlyIncreasingFillsRange(idx, |r|);
    forall i | 0 <= i < |r| ensures r[i].1.index == i {
      assert idx[i] == i;
    }
  }

  lemma {:induction false} StrictlyIncreasingFillsRange(xs: seq<int>, n: int)
    requires |xs| == n
    requires forall i :: 0 <= i < |xs| ==> 0 <= xs[i] < n
    requires forall i :: 0 <= i < |xs| - 1 ==> xs[i] < xs[i + 1]
    ensures forall i :: 0 <= i < |xs| ==> xs[i] == i
  {
    AtLeastPosition(xs, |xs|);
    AtMostPosition(xs, n, |xs|);
  }

  lemma {:induction false} AtLeastPosition(xs: seq<int>, m: nat)
    requires m <= |xs|
    requires forall i :: 0 <= i < |xs| ==> 0 <= xs[i]
    requires forall i :: 0 <= i < |xs| - 1 ==> xs[i] < xs[i + 1]
    ensures forall i :: 0 <= i < m ==> xs[i] >= i
  {
    if m > 0 {
      AtLeastPosition(xs, m - 1);
      if m - 1 > 0 { assert xs[m - 2] < xs[m - 1]; }
    }
  }

  lemma {:induction false} AtMostPosition(xs: seq<int>, n: int, m: nat)
    requires m <= |xs| == n
    requires forall i :: 0 <= i < |xs| ==> xs[i] < n
    requires forall i :: 0 <= i < |xs| - 1 ==> xs[i] < xs[i + 1]
    ensures forall i :: |xs| - m <= i < |xs| ==> xs[i] <= i
  {
    if m > 0 {
      AtMostPosition(xs, n, m - 1);
      var i := |xs| - m;
      if i + 1 < |xs| { assert xs[i] < xs[i + 1]; }
    }
  }

  /** `i18n`'s merge step: the manual translations (if any were given) are added
      to the scanned table, which is then listed in index order: the list is
      exactly the merged table, each entry once. */
  method MergeManualTranslations(
    scanned: MessageTable, manual: Option<seq<(string, string)>>, m: MinifySettings, hash: MinifyFn)
    returns (r: seq<(string, Message)>)
    ensures var t := if manual.Some? then AddTranslations(manual.value, scanned, m, hash) else scanned;
      && |r| == |t|
      && (forall i :: 0 <= i < |r| ==> r[i].0 in t && r[i].1 == t[r[i].0])
      && (forall k :: k in t ==> (k, t[k]) in r)
    ensures forall i, j :: 0 <= i < j < |r| ==> r[i].0 != r[j].0
    ensures forall k :: k in scanned ==> (k, scanned[k]) in r
    ensures manual.None? ==> |r| == |scanned|
    ensures IndexOrdered(r)
    ensures DenseIndices(scanned) ==> forall i :: 0 <= i < |r| ==> r[i].1.index == i
  {
    var t := if manual.Some? then AddTranslations(manual.value, scanned, m, hash) else scanned;
    if manual.Some? && DenseIndices(scanned) {
      AddTranslationsKeepsIndicesDense(manual.value, scanned, m, hash);
    }
    r := OrderedMessages(t);
    if DenseIndices(t) {
      DenseOrderIsPosition(t, r);
    }
  }
}
