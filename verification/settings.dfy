/** The project settings (`I18nConfig`) and the key-minification hook. */
module Settings {
  import Text

  /** The four `minify_key*` settings. */
  datatype MinifySettings = MinifySettings(enabled: bool, len: nat, prefix: string, thresh: nat)

  /** The project's `[package.metadata.i18n]` settings as loaded from Cargo.toml. */
  datatype Config = Config(
    loadPath: string,
    defaultLocale: string,
    availableLocales: seq<string>,
    fallback: seq<string>,
    minify: MinifySettings)

  /** The key-minification hash `minify_key(text, len, prefix, thresh)`. Its
      algorithm is not part of this model; any total function of its four
      arguments stands for it, which makes it deterministic by construction. */
  type MinifyFn = (string, nat, string, nat) -> string

  /** The documented bypass: a text of at most `thresh` bytes is its own key. */
  ghost predicate HonoursThreshold(hash: MinifyFn) {
    forall text, len, prefix, thresh :: Text.Utf8Length(text) <= thresh ==> hash(text, len, prefix, thresh) == text
  }

  /** The key a text is stored under: its hash when minification is on,
      otherwise the text itself. */
  function KeyFor(text: string, m: MinifySettings, hash: MinifyFn): (k: string)
    ensures !m.enabled ==> k == text
    ensures m.enabled ==> k == hash(text, m.len, m.prefix, m.thresh)
  {
    if m.enabled then hash(text, m.len, m.prefix, m.thresh) else text
  }

  /** With a hash that honours its threshold, a short text keeps its own key
      whether or not minification is on. */
  lemma ShortTextIsItsOwnKey(text: string, m: MinifySettings, hash: MinifyFn)
    requires HonoursThreshold(hash)
    requires Text.Utf8Length(text) <= m.thresh
    ensures KeyFor(text, m, hash) == text
  {
  }
}
