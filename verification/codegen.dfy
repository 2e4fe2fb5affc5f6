/** What `generate_code` emits, as the data the generated code carries: one
    constant per loaded locale holding its (key, text) pairs, the optional
    `set_locale` call, the fallback list and the minify settings. A constant
    name that is not a Rust identifier makes `Ident::new` panic. */
module CodeGen {
  import opened Wrappers
  import opened Text
  import opened StringOrder
  import opened LocaleStore
  import opened Settings
  import opened MacroArgs

  const ConstPrefix: string := "_RUST_I18N_TRS_"

  /** How one character of a locale appears in its constant's name: `-` and
      `.` become `_`, and ASCII letters are upper-cased. */
  function MangleChar(c: char): char {
    AsciiUpperChar(if c == '-' || c == '.' then '_' else c)
  }

  /** A locale with every character mangled. */
  function Mangle(locale: string): (m: string)
    ensures |m| == |locale|
    ensures forall i :: 0 <= i < |locale| ==> m[i] == MangleChar(locale[i])
  {
    AsciiUpper(ReplaceChar(ReplaceChar(locale, '-', '_'), '.', '_'))
  }

  /** The name of the constant holding a locale's pairs. */
  function ConstName(locale: string): (r: string)
    ensures |r| == |ConstPrefix| + |locale| && r[..|ConstPrefix|] == ConstPrefix
    ensures forall i :: 0 <= i < |locale| ==> r[|ConstPrefix| + i] == MangleChar(locale[i])
    ensures '-' !in r && '.' !in r
  {
    var m := Mangle(locale);
    assert '-' !in m && '.' !in m by {
      forall i | 0 <= i < |m| ensures m[i] != '-' && m[i] != '.' {
        assert m[i] == MangleChar(locale[i]);
      }
    }
    assert '-' !in ConstPrefix && '.' !in ConstPrefix;
    ConstPrefix + m
  }

  /** Two locales share a constant name exactly when they agree character by
      character once `-`, `.` and `_` are identified and ASCII case is
      ignored. */
  lemma ConstNameClash(a: string, b: string)
    ensures ConstName(a) == ConstName(b) <==>
      |a| == |b| && forall i :: 0 <= i < |a| ==> MangleChar(a[i]) == MangleChar(b[i])
  {
    var p := |ConstPrefix|;
    if ConstName(a) == ConstName(b) {
      forall i | 0 <= i < |a| ensures MangleChar(a[i]) == MangleChar(b[i]) {
        assert ConstName(a)[p + i] == ConstName(b)[p + i];
      }
    }
    if |a| == |b| && forall i :: 0 <= i < |a| ==> MangleChar(a[i]) == MangleChar(b[i]) {
      assert forall i :: 0 <= i < |ConstName(a)| ==> ConstName(a)[i] == ConstName(b)[i] by {
        forall i | 0 <= i < |ConstName(a)| ensures ConstName(a)[i] == ConstName(b)[i] {
          if i < p {
            assert ConstName(a)[i] == ConstName(a)[..p][i] && ConstName(b)[i] == ConstName(b)[..p][i];
          }
        }
      }
    }
  }

  /** `zh-CN`, `zh_CN` and `zh.cn` all get the constant `_RUST_I18N_TRS_ZH_CN`.
      The locales are parameters pinned by `requires`, which keeps the proof
      small. */
  lemma ConstNameCollision(a: string, b: string, c: string)
    requires a == "zh-CN" && b == "zh_CN" && c == "zh.cn"
    ensures ConstName(a) == ConstName(b) == ConstName(c) == ConstPrefix + "ZH_CN"
  {
    var out := "ZH_CN";
    MangledTo(a, out);
    MangledTo(b, out);
    MangledTo(c, out);
  }

  lemma ZhCnIsIdent(name: string)
    requires name == ConstPrefix + "ZH_CN"
    ensures IsIdent(name)
  {
  }

  lemma MangledTo(locale: string, out: string)
    requires |locale| == 5 && out == "ZH_CN"
    requires locale[0] in "zZ" && locale[1] in "hH" && locale[2] in "-._"
    requires locale[3] in "cC" && locale[4] in "nN"
    ensures ConstName(locale) == ConstPrefix + out
  {
    var m := Mangle(locale);
    assert m[0] == out[0] && m[1] == out[1] && m[2] == out[2] && m[3] == out[3] && m[4] == out[4];
    assert m == out;
  }

  /** A character `Ident::new` accepts after the first: an ASCII letter, digit
      or `_`. Every non-ASCII character is taken to be accepted. */
  predicate IdentChar(c: char) {
    ('a' <= c <= 'z') || ('A' <= c <= 'Z') || ('0' <= c <= '9') || c == '_' || c as int >= 0x80
  }

  /** A name `Ident::new` accepts. Every constant name starts with `_`, so
      only the characters matter. */
  predicate IsIdent(name: string) {
    forall i :: 0 <= i < |name| ==> IdentChar(name[i])
  }

  /** A locale whose constant name is an identifier: besides identifier
      characters it may hold only `-` and `.`, which become `_`. */
  predicate MangleableLocale(locale: string) {
    forall i :: 0 <= i < |locale| ==> IdentChar(locale[i]) || locale[i] == '-' || locale[i] == '.'
  }

  /** The constant name is an identifier exactly when the locale holds only
      identifier characters, `-` and `.`. */
  lemma ConstNameIsIdent(locale: string)
    ensures IsIdent(ConstName(locale)) <==> MangleableLocale(locale)
  {
    var m := Mangle(locale);
    assert ConstName(locale) == ConstPrefix + m;
    PrefixIsIdent(ConstPrefix);
    IdentJoin(ConstPrefix, m);
    MangleIsIdent(locale);
  }

  lemma PrefixIsIdent(p: string)
    requires p == ConstPrefix
    ensures IsIdent(p)
  {
  }

  lemma IdentJoin(a: string, b: string)
    ensures IsIdent(a + b) <==> IsIdent(a) && IsIdent(b)
  {
    if IsIdent(a + b) {
      assert forall i :: 0 <= i < |a| ==> a[i] == (a + b)[i];
      assert forall i :: 0 <= i < |b| ==> b[i] == (a + b)[|a| + i];
    }
  }

  lemma MangleIsIdent(locale: string)
    ensures IsIdent(Mangle(locale)) <==> MangleableLocale(locale)
  {
    var m := Mangle(locale);
    forall i | 0 <= i < |locale|
      ensures IdentChar(m[i]) <==> IdentChar(locale[i]) || locale[i] == '-' || locale[i] == '.'
    {
      MangleCharIdent(locale[i]);
    }
  }

  lemma MangleCharIdent(c: char)
    ensures IdentChar(MangleChar(c)) <==> IdentChar(c) || c == '-' || c == '.'
  {
  }

  /** One emitted constant and the `extend_locale_from_slice` call using it. */
  datatype Block = Block(locale: string, name: string, entries: seq<(string, string)>)

  /** The data carried by the generated code. */
  datatype Emitted = Emitted(
    blocks: seq<Block>,
    setLocale: Option<string>,
    fallback: Option<seq<string>>,
    extend: Option<Value>,
    minify: MinifySettings)

  /** A locale's pairs, taken in ascending key order. */
  function Entries(trs: Table): (r: seq<(string, string)>)
    ensures CellLocales(r) == Sorted(trs.Keys)
    ensures forall j :: 0 <= j < |r| ==> r[j].0 in trs && r[j].1 == trs[r[j].0]
  {
    var keys := Sorted(trs.Keys);
    var r := seq(|keys|, j requires 0 <= j < |keys| => (keys[j], trs[keys[j]]));
    assert CellLocales(r) == keys;
    r
  }

  function MakeBlock(t: Store, locale: string): (b: Block)
    requires locale in t
    ensures b.locale == locale && b.name == ConstName(locale)
  {
    Block(locale, ConstName(locale), Entries(t[locale]))
  }

  /** The locales of the blocks, in emission order. */
  function BlockLocales(blocks: seq<Block>): (r: seq<string>)
    ensures |r| == |blocks| && forall i :: 0 <= i < |blocks| ==> r[i] == blocks[i].locale
  {
    seq(|blocks|, i requires 0 <= i < |blocks| => blocks[i].locale)
  }

  /** A block per listed locale, in the order listed. */
  function Blocks(t: Store, locales: seq<string>): (r: seq<Block>)
    requires forall i :: 0 <= i < |locales| ==> locales[i] in t
    ensures BlockLocales(r) == locales
    ensures forall i :: 0 <= i < |r| ==> r[i] == MakeBlock(t, locales[i])
  {
    var r := seq(|locales|, i requires 0 <= i < |locales| => MakeBlock(t, locales[i]));
    assert BlockLocales(r) == locales;
    r
  }

  /** Every loaded locale's constant name is an identifier. */
  predicate IdentNames(t: Store) {
    forall l :: l in t ==> IsIdent(ConstName(l))
  }

  /** `generate_code`: a block per loaded locale, each once, taken in
      ascending order; `set_locale` with the default locale when there is
      one; the fallback as `Some(list)` or `None`; the backend extension and
      minify settings as configured. `None` is the panic of `Ident::new` on a
      loaded locale whose constant name is not an identifier. */
  function GenerateCode(t: Store, args: Args): (r: Option<Emitted>)
    ensures r.None? <==> exists l :: l in t && !IsIdent(ConstName(l))
    ensures r.Some? ==> forall l :: l in t <==> l in BlockLocales(r.value.blocks)
    ensures r.Some? ==> Ordered(BlockLocales(r.value.blocks), false)
    ensures r.Some? ==> forall i :: 0 <= i < |r.value.blocks| ==> r.value.blocks[i].name == ConstName(r.value.blocks[i].locale)
    ensures r.Some? ==> (r.value.setLocale.Some? <==> args.defaultLocale.Some?)
    ensures r.Some? ==> r.value.setLocale.Some? ==> r.value.setLocale == args.defaultLocale
    ensures r.Some? ==> (r.value.fallback.Some? <==> args.fallback.Some?)
    ensures r.Some? ==> r.value.fallback.Some? ==> r.value.fallback == args.fallback
  {
    if IdentNames(t) then Some(Emit(t, args)) else None
  }

  /** The code generated when every constant name is an identifier. */
  function Emit(t: Store, args: Args): (e: Emitted)
    requires IdentNames(t)
    ensures forall l :: l in t <==> l in BlockLocales(e.blocks)
    ensures Ordered(BlockLocales(e.blocks), false)
    ensures forall i :: 0 <= i < |e.blocks| ==> e.blocks[i].name == ConstName(e.blocks[i].locale)
    ensures e.setLocale == args.defaultLocale && e.fallback == args.fallback
  {
    var locales := Sorted(t.Keys);
    var blocks := Blocks(t, locales);
    Emitted(blocks, args.defaultLocale, args.fallback, args.extend, args.minify)
  }

  /** A locale with a character outside identifiers, `-` and `.`, such as the
      `@` of `sr@latin`, makes the macro panic. */
  lemma NonIdentLocalePanics(t: Store, args: Args, locale: string, i: nat)
    requires locale in t && i < |locale|
    requires !IdentChar(locale[i]) && locale[i] != '-' && locale[i] != '.'
    ensures GenerateCode(t, args).None?
  {
    ConstNameIsIdent(locale);
  }

  /** Each emitted constant holds exactly its locale's table: reading its
      pairs back into a map gives the loaded table. */
  lemma BlockCarriesTable(t: Store, args: Args, i: nat)
    requires GenerateCode(t, args).Some? && i < |GenerateCode(t, args).value.blocks|
    ensures var b := GenerateCode(t, args).value.blocks[i];
      b.locale in t && CellMap(b.entries) == t[b.locale]
  {
    var b := GenerateCode(t, args).value.blocks[i];
    assert b == MakeBlock(t, Sorted(t.Keys)[i]);
    EntriesReadBack(t[b.locale]);
  }

  /** The pairs of a table, read back into a map, give the table. */
  lemma EntriesReadBack(trs: Table)
    ensures CellMap(Entries(trs)) == trs
  {
    var m := CellMap(Entries(trs));
    forall k | k in trs ensures k in m && m[k] == trs[k] {
      EntryAt(trs, k);
    }
    forall k | k in m ensures k in trs {
      assert k in CellLocales(Entries(trs));
    }
    MapExt(m, trs);
  }

  lemma EntryAt(trs: Table, k: string)
    requires k in trs
    ensures var m := CellMap(Entries(trs)); k in m && m[k] == trs[k]
  {
    var e := Entries(trs);
    EntriesDistinct(trs);
    assert k in Sorted(trs.Keys);
    var j :| 0 <= j < |e| && CellLocales(e)[j] == k;
    assert e[j].0 == k;
  }

  lemma MapExt<K, V>(a: map<K, V>, b: map<K, V>)
    requires forall k :: k in a <==> k in b
    requires forall k :: k in a ==> a[k] == b[k]
    ensures a == b
  {
  }

  lemma EntriesDistinct(trs: Table)
    ensures DistinctLocales(Entries(trs))
  {
    var e := Entries(trs);
    var keys := Sorted(trs.Keys);
    forall x, y | 0 <= x < y < |e| ensures e[x].0 != e[y].0 {
      assert CellLocales(e)[x] == keys[x] && CellLocales(e)[y] == keys[y];
    }
  }

  /** The generated constants are all distinct, as a block of Rust items
      requires. */
  predicate NamesDistinct(e: Emitted) {
    forall i, j :: 0 <= i < j < |e.blocks| ==> e.blocks[i].name != e.blocks[j].name
  }

  /** Loading both `zh-CN` and `zh_CN` gives two constants of the same name. */
  lemma CollidingLocales(args: Args)
    ensures var t := map["zh-CN" := map[], "zh_CN" := map[]];
      GenerateCode(t, args).Some? && !NamesDistinct(GenerateCode(t, args).value)
  {
    var t: Store := map["zh-CN" := map[], "zh_CN" := map[]];
    TwoSpellings(t, "zh-CN", "zh_CN", args);
  }

  /** `CollidingLocales` with its literals passed as parameters. */
  lemma TwoSpellings(t: Store, a: string, b: string, args: Args)
    requires a == "zh-CN" && b == "zh_CN"
    requires t == map[a := map[], b := map[]]
    ensures GenerateCode(t, args).Some? && !NamesDistinct(GenerateCode(t, args).value)
  {
    ConstNameCollision(a, b, "zh.cn");
    ZhCnIsIdent(ConstName(a));
    assert a != b by { assert a[2] != b[2]; }
    assert forall l :: l in t ==> l == a || l == b;
    CollidingNames(t, a, b, args);
  }

  /** Two loaded locales with one constant name: the code is generated, and
      its constants are not distinct. */
  lemma CollidingNames(t: Store, a: string, b: string, args: Args)
    requires a in t && b in t && a != b
    requires ConstName(a) == ConstName(b)
    requires IdentNames(t)
    ensures GenerateCode(t, args).Some? && !NamesDistinct(GenerateCode(t, args).value)
  {
    var e := Emit(t, args);
    var bl := BlockLocales(e.blocks);
    assert a in bl && b in bl;
    var i :| 0 <= i < |bl| && bl[i] == a;
    var j :| 0 <= j < |bl| && bl[j] == b;
    assert e.blocks[i].name == e.blocks[j].name;
    if j < i {
      assert e.blocks[j].name == e.blocks[i].name;
    }
  }
}
