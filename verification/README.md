# rust-i18n core, modelled in Dafny

This project models the deterministic logic at the centre of rust-i18n and
proves properties of it. The logic comes from two places.

**The `cargo i18n` command-line tool** (`crates/cli/src/main.rs`):
- `-t` argument parsing (`remove_quotes`, `translate_value_parser`);
- the insert-if-absent merge of manual translations (`add_translations`) and the listing of the message table by index;
- the `-l` locale filter (`filter_locales`);
- the export command's key × locale matrix under the `--missed` policy, with dispatch by output extension and the CSV record layout (`convert_text`, `convert_csv_text`);
- the sort command's rebuild of one locale file, with its output-name and skip rules.

**The `i18n!` procedural macro** (`crates/macro/src/lib.rs`):
- option precedence in `Args::parse`, in the order hard defaults, `Cargo.toml` metadata, positional path, then named options from left to right (`load_metadata`, `consume_options`, `consume_fallback`);
- what `generate_code` emits, namely the per-locale constants and their names, the `set_locale` call and the `Some(list)`/`None` fallback;
- the lookup functions the macro emits into the user's crate: `_rust_i18n_lookup_fallback`, `_rust_i18n_try_translate` and `_rust_i18n_translate`.

The loaded translations are a `Store`, which is a `map<string, map<string, string>>` from locale to key to text. Locale sets are `set<string>`.
- Sorted outputs are `seq<string>` in ascending order, or descending when reversed. The order is code-point lexicographic, which is the same as the byte order of UTF-8 that Rust's `String` sorting uses.
- Rust panics that the code can reach are modelled as explicit outcomes:
  - `remove_quotes` on the one-character input `"` returns `None`;
  - `unwrap` on a path without an extension gives `SortOutcome.Panicked`;
  - `Ident::new` on a constant name that is not a Rust identifier makes `generate_code` return `None`.
- Library errors are `Result` failures carrying the error text.

Modules, in dependency order:
- `Wrappers`: `Option` and `Result`.
- `Text`: `trim`, `find`, `rfind`, `trim_end_matches`, character replacement and ASCII upper-casing.
- `StringOrder`: lexicographic order, sorting a set, and reversal.
- `LocaleStore`: the store, its keys and locales, and key-major rows.
- `Settings`: `I18nConfig` and the minify-key hook.
- `Paths`: `Path::file_name`, `extension`, `file_stem` and the directory that `set_file_name` keeps.
- `Formats`: `convert_text`.
- `ExtractCommand`, `LocaleFilter`, `ExportCommand`, `SortCommand`: the commands.
- `MacroArgs`, `CodeGen`: the macro.
- `RuntimeLookup`: the emitted lookup functions.

The minify-key hash is not shown, so it is a parameter: any total function `(text, len, prefix, thresh) -> key`. That makes it deterministic by construction. Its documented bypass (a text of at most `thresh` bytes is its own key) is the hypothesis `HonoursThreshold` of the one lemma that needs it.

## Model

| member | source | states |
|---|---|---|
| ExtractCommand.RemoveQuotes | crates/cli/src/main.rs:138-148 | At most one leading and one trailing `"` are removed and nothing else: the input is the optional quote, the result, then the optional quote. The result is `None` (the slice panic) exactly for the input `"`. |
| ExtractCommand.UnquoteQuoted | crates/cli/src/main.rs:138-148 | A text with no quote at either end, wrapped in a pair of quotes or in none, comes back unchanged. |
| ExtractCommand.TranslateValueParser | crates/cli/src/main.rs:151-159 | There is no error result. Without `=>` the argument is both key and text, untrimmed. With `=>` it panics exactly when a trimmed side is the lone `"`. |
| ExtractCommand.TranslateValueParserRoundTrip | crates/cli/src/main.rs:151-159 | `key => text`, with any whitespace around the arrow and optional quotes around either side, parses back to `(key, text)`. The key may contain `=`, though not `=>`. |
| ExtractCommand.FirstArrow | crates/cli/src/main.rs:152 | `split_once` splits at the first `=>`. When the left side is a possibly quoted key without `=>` plus whitespace, that is the arrow after it: no `=>` starts inside the key or runs across its end. |
| Text.TrimOfPadded | crates/cli/src/main.rs:153-154 | `trim` removes exactly the Unicode whitespace padding around an unpadded text. |
| Text.IndexOf | crates/cli/src/main.rs:152 | The first occurrence of the pattern: it occurs there and at no earlier position, and `None` means it occurs nowhere. |
| Settings.KeyFor | crates/cli/src/main.rs:177-184 | With minification on, a text is stored under the hash of the text and the three `minify_key_*` settings. With it off, a text is stored under itself. |
| Settings.ShortTextIsItsOwnKey | crates/macro/src/lib.rs:221 | Given the documented bypass, a text of at most `thresh` UTF-8 bytes is its own key whether or not minification is on. |
| ExtractCommand.KeysOf | crates/cli/src/main.rs:177-184 | Each manual pair's key, in argument order. |
| ExtractCommand.AddOne | crates/cli/src/main.rs:176-190 | One pair: existing entries are untouched and the key set grows by exactly the pair's key. A new key gets the translation, the table size as index, the minify flag and no locations. |
| ExtractCommand.AddTranslations | crates/cli/src/main.rs:162-191 | Existing entries are never modified. The keys afterwards are the old ones plus the pairs' keys. Every new entry has no locations, the configured minify flag, and an index between the old size and the new size. |
| ExtractCommand.AddTranslationsAppend | crates/cli/src/main.rs:175-191 | The pairs are merged one after another, in argument order: merging `a + b` gives the same table as merging `a` and then merging `b` into the result. |
| ExtractCommand.FirstPairWins | crates/cli/src/main.rs:185-190 | The first pair that produces a new key decides its translation, and later pairs with the same key change nothing. |
| ExtractCommand.AddTranslationsKeepsIndicesDense | crates/cli/src/main.rs:175-191 | If the indices were exactly 0 … n-1 before, they are exactly 0 … n'-1 after. |
| ExtractCommand.InsertByIndex | crates/cli/src/main.rs:210 | Insertion into an index-ordered list adds exactly the one entry. |
| ExtractCommand.InsertByIndexOrdered | crates/cli/src/main.rs:210 | Insertion keeps the list ordered by index. |
| ExtractCommand.OrderedMessages | crates/cli/src/main.rs:209-210 | The table listed by index: every entry exactly once, with its key and message, in index order. |
| ExtractCommand.DenseOrderIsPosition | crates/cli/src/main.rs:209-210 | With dense indices, the message with index `i` is listed at position `i`. |
| ExtractCommand.MergeManualTranslations | crates/cli/src/main.rs:205-210 | The list is exactly the merged table: the scanned entries plus, when manual pairs are given, the entries `add_translations` adds, each once with its message. Every scanned entry is listed unchanged and the list is in index order. Without manual pairs nothing is added. When the scanned indices are dense, each listed message sits at its own index. |
| ExportCommand.ParseMissedBehavior | crates/cli/src/main.rs:62-68 | Only the exact words `default` and `empty` parse. Anything else is the error `invalid missed behavior`. |
| LocaleFilter.Explicit | crates/cli/src/main.rs:220-222 | The bare tokens are exactly the tokens with no `+`/`!` prefix. |
| LocaleFilter.Modifiers | crates/cli/src/main.rs:220-222 | The `+`/`!` tokens, all of them and only those. |
| LocaleFilter.ModifiersKeepOrder | crates/cli/src/main.rs:220-238 | Setting the bare tokens aside keeps the modifiers in argument order: the last modifier naming a locale is the same as among all the tokens. |
| LocaleFilter.Narrow | crates/cli/src/main.rs:224-226 | Bare tokens narrow the set to the named locales and never add one. Without bare tokens nothing is removed. |
| LocaleFilter.ApplyModifier | crates/cli/src/main.rs:228-238 | `!l` removes `l`, `+l` inserts `l`, and any other token changes nothing. |
| LocaleFilter.FilterLocales | crates/cli/src/main.rs:219-240 | No tokens leave the set unchanged. Without modifiers the result is a subset of the input. |
| LocaleFilter.LastModifierWins | crates/cli/src/main.rs:228-239 | Applied in order, the last modifier naming a locale decides its membership. A locale no modifier names keeps its membership. |
| LocaleFilter.FilterLocalesMembership | crates/cli/src/main.rs:219-240 | A locale is exported iff the last modifier among the `-l` tokens naming it is a `+`; with no such modifier, iff it was available and either no bare tokens were given or it is one of them. |
| LocaleFilter.IncludeAndAdd | crates/cli/src/main.rs:79-80 | `-l en,+es` over `{en, fr}` exports exactly `{en, es}`: `+es` adds a locale nobody declared. |
| LocaleFilter.ExcludeAndAdd | crates/cli/src/main.rs:81 | `-l +es,!fr` over `{en, fr}` exports exactly `{en, es}`. |
| LocaleStore.KnownLocales | crates/cli/src/main.rs:259-264 | The candidate locales are exactly the configured ones plus the loaded ones. |
| LocaleStore.AllKeys | crates/cli/src/main.rs:271 | A key is listed iff some loaded locale, filtered out or not, has a text for it. |
| StringOrder.Sorted | crates/cli/src/main.rs:266-267 | Sorting a set lists each element exactly once, in strictly ascending order. |
| StringOrder.OrderedElements | crates/cli/src/main.rs:412-415 | Each element exactly once, ascending or, when reversed, descending. |
| StringOrder.OrderedUnique | crates/cli/src/main.rs:266-267 | A strictly ordered list is determined by its elements. |
| ExportCommand.ExportLocales | crates/cli/src/main.rs:259-267 | The columns are exactly the filtered locales, in ascending order. |
| ExportCommand.ExportRow | crates/cli/src/main.rs:276-291 | One key's row: a cell per column, in column order, holding what the missing-value policy gives for that locale. |
| ExportCommand.ExportRows | crates/cli/src/main.rs:271-292 | One row per loaded key, in ascending key order. |
| ExportCommand.Export | crates/cli/src/main.rs:294-300 | An output path without an extension is the error `unexpected file format`. Otherwise the matrix is converted for that extension. |
| ExportCommand.ExportReadBack | crates/cli/src/main.rs:275-292 | Read back, a structured export gives every loaded key under every exported locale. Each cell holds the locale's own text, else the default locale's text or `""` under `default`, and `""` under `empty`. No other (locale, key) pair has a value. |
| ExportCommand.ExportCsvGrid | crates/cli/src/main.rs:309-322 | A CSV export is a grid. The header is `key` plus the exported locales. Each record is one key in ascending order followed by its cells, column by column. |
| ExportCommand.MissingCellExample | crates/cli/src/main.rs:280-288 | With `es` declared but empty, the `es` cell repeats the default locale's text under `default` and is blank under `empty`. |
| Formats.CsvRecords | crates/cli/src/main.rs:309-322 | The header is `key` followed by the first row's locales, then one record per row: its key and its texts in cell order. |
| Formats.CsvColumnsLineUp | crates/cli/src/main.rs:311-321 | When every row has the header's locales, every record is as long as the header and column `j` holds that row's text for the header's locale `j`. |
| Formats.StructuredRoot | crates/cli/src/main.rs:335-344 | The object's keys are `_version` and the row keys. `_version` holds 2 unless a translation key named `_version` overwrote it. With distinct keys, each key holds its row's locale → text object. |
| Formats.FieldOfCell | crates/cli/src/main.rs:338-344 | Every cell is found again under its row's key and its locale. |
| Formats.FieldOutsideCells | crates/cli/src/main.rs:338-344 | Nothing else is found: not a key with no row, and not a locale the row has no cell for. |
| Formats.ConvertText | crates/cli/src/main.rs:327-356 | Exactly `csv`, `json`, `yaml`, `yml` and `toml` are accepted, case-sensitively. `csv` gives the records and the others give the nested object. |
| Paths.Extension | crates/cli/src/main.rs:295-297 | The text after the file name's last `.`, which therefore holds no `.`, with a non-empty name part before it. `None` exactly when there is no file name or no `.` after its first character, as for `.bashrc`. |
| Paths.FileStem | crates/cli/src/main.rs:435 | The file name before its last `.` when the path has an extension, and the whole file name otherwise. It is never empty, and `None` only when there is no file name. |
| Paths.ExtensionOfFileName | crates/cli/src/main.rs:428-437 | Read in reverse: a file name that is a non-empty stem, a `.` and a text without `.` has that extension and that stem. |
| Paths.ExtensionOfName | crates/cli/src/main.rs:428-437 | `dir/stem.ext` has extension `ext` and stem `stem`. |
| Paths.FileNameOfJoin | crates/cli/src/main.rs:432-437 | The file name of `dir/stem.ext` is `stem.ext`. |
| SortCommand.SortCells | crates/cli/src/main.rs:418-424 | A key's cells are exactly the locales with a text for the key, each holding that text. No empty or defaulted cell is added. |
| SortCommand.SortCellsOrdered | crates/cli/src/main.rs:418-424 | The cells keep the order of the sort locales. |
| SortCommand.SortLocales | crates/cli/src/main.rs:400-415 | The sort locales are the configured and the file's own, each once, ascending or, reversed, descending. |
| SortCommand.SortTable | crates/cli/src/main.rs:408-426 | Every key of the file exactly once, ascending or, reversed, descending, each with its cells over the sort locales. |
| SortCommand.SortRowsOrdered | crates/cli/src/main.rs:412-426 | Within every row the locales follow the same direction as the keys, and no row is empty. |
| SortCommand.SortKeepsContent | crates/cli/src/main.rs:417-426 | Read back, the rebuilt table holds exactly the file's (locale, key, text) triples. |
| SortCommand.SortRespectsContent | crates/cli/src/main.rs:399-426 | The rebuilt table depends only on the file's triples, not on which locales are loaded with empty tables. |
| SortCommand.SortIdempotent | crates/cli/src/main.rs:399-426 | Sorting the sorted output again yields the same table. |
| SortCommand.SortFile | crates/cli/src/main.rs:392-440 | Outside in-place mode, a path containing `-sorted` anywhere is skipped. Otherwise a path without an extension panics. In place, the output goes back to the same path; otherwise to `<dir>/<stem>-sorted.<ext>`. What is written is the sorted table converted for the file's extension, and a conversion error is returned as the command's error. |
| SortCommand.GlobbedEntryIsWrittenOrSkipped | crates/cli/src/main.rs:389-440 | For a path the `*.{yml,yaml,json,toml}` walk yields, the file is skipped or its sorted table is written as a structured document. The panic, the CSV branch and the conversion error cannot happen. |
| SortCommand.SortedPathIsSkipped | crates/cli/src/main.rs:428-439 | The sorted file keeps the extension, its stem gains `-sorted`, and a later run outside in-place mode skips it. |
| SortCommand.SortedDirectorySkipped | crates/cli/src/main.rs:393 | For every directory whose name contains `-sorted` and every file name, the file under that directory is skipped outside in-place mode. |
| Text.LastIndexOf | crates/macro/src/lib.rs:363 | `rfind`: the last position of the character, and `None` exactly when it does not occur. |
| Text.TrimEndMatches | crates/macro/src/lib.rs:363 | A prefix of the input that no longer ends with the pattern. |
| Text.TrimEndMatchesOfRepeat | crates/macro/src/lib.rs:363 | Any number of trailing repetitions are removed and nothing more. |
| RuntimeLookup.LookupFallback | crates/macro/src/lib.rs:362-364 | `None` exactly when the locale has no `-`. Otherwise a strictly shorter prefix of the locale that does not end with `-x`. |
| RuntimeLookup.LookupFallbackOfTruncated | crates/macro/src/lib.rs:362-364 | A base not ending in `-x`, followed by any number of `-x` and one last subtag, falls back to the base. |
| RuntimeLookup.Chain | crates/macro/src/lib.rs:388-394 | The structural walk terminates. Each candidate is a strictly shorter prefix of the one before, and the walk is empty exactly for a locale without `-`. |
| RuntimeLookup.ChainExample | crates/macro/src/lib.rs:356 | The documented chain `zh-Hant-CN-x-private1-private2` → `zh-Hant-CN-x-private1` → `zh-Hant-CN` → `zh-Hant` → `zh`. |
| RuntimeLookup.FirstHit | crates/macro/src/lib.rs:396-398 | The first locale in the list with a text for the key; `None` exactly when all miss. |
| RuntimeLookup.FirstHitAppend | crates/macro/src/lib.rs:387-398 | Probing two lists one after the other: the second is consulted only when the first misses throughout. |
| RuntimeLookup.TryTranslate | crates/macro/src/lib.rs:384-400 | The probe order is the locale, then its structural chain in order, then the declared fallback list in declared order. The result is the first text found. |
| RuntimeLookup.Translate | crates/macro/src/lib.rs:370-378 | The text found, or on a miss the key for the empty locale and `locale.key` otherwise. |
| RuntimeLookup.FlatLocaleProbes | crates/macro/src/lib.rs:389-398 | For a locale without `-`, the empty one included, the declared list is consulted right after the locale itself. |
| RuntimeLookup.MissEverywhere | crates/macro/src/lib.rs:384-400 | A key with no text anywhere is `None` whatever the locale and fallback list. |
| MacroArgs.LoadMetadata | crates/macro/src/lib.rs:125-146 | Loading fails exactly for an unloadable `Cargo.toml`, or a missing manifest directory in debug mode. Loaded settings replace the path, default locale and minify settings. They replace the fallback only when their list is non-empty, and leave the backend alone. |
| MacroArgs.ConsumeFallback | crates/macro/src/lib.rs:31-56 | A string literal is a one-locale list. An array succeeds iff it holds only string literals, and then gives their values in order. |
| MacroArgs.FallbackForms | crates/macro/src/lib.rs:31-56 | `"en"` gives `["en"]`, `["en", "es"]` gives that list, and an array with a non-literal is the documented error. |
| MacroArgs.ParseUsize | crates/macro/src/lib.rs:64-68 | An integer literal parses iff it fits a 64-bit `usize`, and keeps its value. |
| MacroArgs.ConsumeOption | crates/macro/src/lib.rs:93-114 | A recognised option succeeds iff its value has the form its name calls for, and never touches the path or the default locale. |
| MacroArgs.ConsumeOptions | crates/macro/src/lib.rs:88-122 | Options are consumed left to right. Consumption stops at the first unrecognised name that has a value, and exactly that option and the rest are left over; an unrecognised name with no value is passed over. It succeeds iff every option before that point is accepted. |
| MacroArgs.ConsumeOptionsLastWins | crates/macro/src/lib.rs:88-122 | When every option is consumed, each setting is the one the last option naming it gives, and every other setting is unchanged. |
| MacroArgs.OverlayStep | crates/macro/src/lib.rs:93-119 | Applying one option and then overlaying the rest equals overlaying them all. |
| MacroArgs.ParseMacroInput | crates/macro/src/lib.rs:176-204 | The input is accepted iff the metadata loads, every option is accepted and no `,` dangles at the end. Then the path is the positional literal, else the metadata's, else `locales`, and the metadata is the only source of the default locale. |
| MacroArgs.ParsePrecedence | crates/macro/src/lib.rs:176-204 | Every minify setting comes from the last option naming it, else the metadata, else the hard default. The backend comes from the last `backend` option. The fallback comes from the last `fallback` option, else the metadata's non-empty list, else none. |
| MacroArgs.UnknownOptionRejected | crates/macro/src/lib.rs:113-119 | An unrecognised option name given a value anywhere, the documented `metadata` included, makes the whole macro input an error. |
| MacroArgs.ValuelessUnknownAccepted | crates/macro/src/lib.rs:113-119 | `i18n!("locales", foo =)` is accepted and yields exactly the arguments of `i18n!("locales")`. |
| MacroArgs.ValuelessUnknownIgnored | crates/macro/src/lib.rs:113-119 | An unrecognised name with nothing after its `=`, inserted at any position among any options, changes neither acceptance nor the resulting arguments. |
| MacroArgs.ConsumeSkipsValueless | crates/macro/src/lib.rs:113-119 | The option loop passes over such an option: the same acceptance, the same arguments, and leftover options exactly when there were some without it. |
| MacroArgs.MinifyLenUnchecked | crates/macro/src/lib.rs:64-68 | `minify_key_len = n` is stored as `n` for any `usize` literal, with no check against the documented range 0 to 24. |
| CodeGen.ConstName | crates/macro/src/lib.rs:287-290 | The name is `_RUST_I18N_TRS_` followed by the locale, character by character, with `-` and `.` turned into `_` and letters upper-cased. It has no `-` and no `.`. |
| CodeGen.ConstNameClash | crates/macro/src/lib.rs:287-290 | Two locales share a name iff they have the same length and agree at every position once `-`, `.` and `_` are identified and case is ignored. |
| CodeGen.ConstNameCollision | crates/macro/src/lib.rs:287-290 | `zh-CN`, `zh_CN` and `zh.cn` all get `_RUST_I18N_TRS_ZH_CN`. |
| CodeGen.CollidingLocales | crates/macro/src/lib.rs:287-294 | Loading both `zh-CN` and `zh_CN` emits two constants of the same name. |
| CodeGen.Entries | crates/macro/src/lib.rs:279-285 | A locale's pairs list each of its keys once, with its text. |
| CodeGen.EntriesReadBack | crates/macro/src/lib.rs:279-285 | The pairs, read back into a map, give the locale's table. |
| CodeGen.ConstNameIsIdent | crates/macro/src/lib.rs:287-291 | The constant name is an identifier iff the locale holds only identifier characters, `-` and `.`. |
| CodeGen.NonIdentLocalePanics | crates/macro/src/lib.rs:287-291 | A loaded locale with any other character, such as the `@` of `sr@latin`, makes the macro panic. |
| CodeGen.GenerateCode | crates/macro/src/lib.rs:270-323 | `None`, the panic of `Ident::new`, exactly when some loaded locale's constant name is not an identifier. Otherwise one block per loaded locale, each once, named by `ConstName`. `set_locale` is emitted iff there is a default locale, and with it. The fallback is `Some(list)` iff one is set, else `None`. |
| CodeGen.BlockCarriesTable | crates/macro/src/lib.rs:276-296 | Each emitted constant holds exactly its locale's loaded table. |

## Left out

- Command-line parsing (clap) and the dispatch and exit code of `main`: plumbing with no logic of its own.
- Filesystem and I/O are left out, and the loaded store and settings are inputs: `find_load_path`, `write_file`, `globwalk` enumeration, logging, `I18nConfig::load`, `load_locales`/`load_locale`, and source scanning (`iter_crate`, `extractor::extract`, `generator::generate`).
- Byte-level serialisation (csv quoting, serde_json, serde_yaml, toml, and the YAML `---` stripping) is library behaviour. A document is modelled as the records or the nested object those writers are handed.
- `syn` token parsing and `quote!` output are not modelled. Macro options are an already-tokenised list of `name = value` pairs whose value may be missing, and generated code is modelled as the data it carries. Whether an `Expr` is well-formed is not modelled: any `backend` value that is present is accepted.
- The environment is a pair of parameters: whether `CARGO_MANIFEST_DIR` is set (the `Metadata` value) and whether debug mode is on.
- The lazy initialisation of the backend (`once_cell`) is concurrency. The backend is an immutable store.
- Backend internals are not modelled: `StaticBackend`, `Backend::extend`, `extend_locale_from_slice`, and `_rust_i18n_available_locales`.
- The minify-key algorithm and the `_tr!` and `_minify_key!` macros are not shown. The hash is a parameter.
- The defaults `DEFAULT_MINIFY_KEY*` live in a crate that is not shown. They are the parameter `defaults`.
- Path normalisation, absolute load paths, and non-`/` separators are not modelled. Paths are `/`-separated strings.
- Paths.FileName: takes the text after the last `/` literally. Rust's `Path::file_name` first normalises the path, so it gives `out.csv` for `out.csv/` where the model gives None, and `a` for `a/.` where the model gives `.`.
- Formats.ConvertText: the `csv` branch always succeeds. Rust's `csv::Writer` rejects a record whose length differs from the header's, but the export command gives every key one text per selected locale, so every record has the header's length (`Formats.CsvColumnsLineUp`) and that error cannot arise. `i18n_sort` never reaches the `csv` branch.
- CodeGen.ConstName: upper-cases ASCII letters only. Rust's `to_uppercase` also maps other letters, some to several characters, so for non-ASCII locales the model's name can differ from the real one.
- CodeGen.GenerateCode: emits the blocks in ascending locale order and each block's pairs in ascending key order. The source follows `HashMap` iteration order, which is unspecified; only the set of blocks and their contents are meaningful.
- CodeGen.ConstNameIsIdent: every non-ASCII character is taken to be an identifier character. Rust accepts only those with the Unicode XID_Continue property, so a locale with, say, a non-ASCII symbol panics in Rust while `GenerateCode` returns code.
- CodeGen.BlockCarriesTable: reads a block's pairs back as a map in which a later pair replaces an earlier one. The backend's own `extend_locale_from_slice` is not shown.
- ExtractCommand.OrderedMessages: `sort_by_key` is stable over `HashMap` iteration order, which is unspecified. The model picks the next entry with `:|`, so it admits every order of entries with equal indices. The order is unique when the indices are distinct.
- SortCommand.GlobbedEntryIsWrittenOrSkipped: takes the walk to yield only paths whose extension is one of the four. Whether the walk also matches a file named just `.yml`, which has no extension, depends on `globwalk` and is not modelled.
- MacroArgs.ParseUsize: `usize` is taken as 64 bits wide.
- Settings.ShortTextIsItsOwnKey: the bypass of the hash is a hypothesis of this lemma (`HonoursThreshold`), not a property of every hash.
