/** The lookup functions the `i18n!` macro emits into the user's crate:
    `_rust_i18n_lookup_fallback`, `_rust_i18n_try_translate` and
    `_rust_i18n_translate`. The backend is the loaded store, read-only. */
module RuntimeLookup {
  import opened Wrappers
  import opened Text
  import opened LocaleStore

  /** `_rust_i18n_lookup_fallback`: cut the locale at its last `-`, then strip
      every trailing `-x` (a private-use marker left without its subtags).
      This is the truncation step of the "Lookup" scheme of section 3.4 of
      RFC 4647, without its rule about single-letter subtags other than `x`. */
  function LookupFallback(locale: string): (r: Option<string>)
    ensures r.None? <==> '-' !in locale
    ensures r.Some? ==> |r.value| < |locale| && r.value == locale[..|r.value|]
    ensures r.Some? ==> !EndsWith(r.value, "-x")
  {
    match LastIndexOf(locale, '-')
    case None => None
    case Some(n) =>
      var r := TrimEndMatches(locale[..n], "-x");
      assert r == locale[..|r|];
      Some(r)
  }

  /** The inverse reading: a base that does not end in `-x`, followed by any
      number of `-x` markers and one last `-` subtag, falls back to the base. */
  lemma LookupFallbackOfTruncated(base: string, markers: nat, last: string)
    requires !EndsWith(base, "-x")
    requires '-' !in last
    ensures LookupFallback(base + Repeat("-x", markers) + "-" + last) == Some(base)
  {
    var head := base + Repeat("-x", markers);
    var s := head + "-" + last;
    assert s == head + ['-'] + last;
    LastIndexOfJoin(head, '-', last);
    assert s[..|head|] == head;
    TrimEndMatchesOfRepeat(base, "-x", markers);
  }

  /** The structural fallback chain: the locales `try_translate`'s loop visits,
      each a strictly shorter prefix of the one before. */
  function Chain(locale: string): (r: seq<string>)
    ensures forall i :: 0 <= i < |r| ==> |r[i]| < |locale| && r[i] == locale[..|r[i]|]
    ensures forall i :: 0 <= i < |r| - 1 ==> |r[i + 1]| < |r[i]|
    ensures r == [] <==> '-' !in locale
    decreases |locale|
  {
    match LookupFallback(locale)
    case None => []
    case Some(f) =>
      var rest := Chain(f);
      PrefixesCons(locale, f, rest);
      [f] + rest
  }

  /** Prefixes of a prefix are prefixes. */
  lemma PrefixesCons(locale: string, f: string, rest: seq<string>)
    requires |f| < |locale| && f == locale[..|f|]
    requires forall i :: 0 <= i < |rest| ==> |rest[i]| < |f| && rest[i] == f[..|rest[i]|]
    requires forall i :: 0 <= i < |rest| - 1 ==> |rest[i + 1]| < |rest[i]|
    ensures var r := [f] + rest;
      && (forall i :: 0 <= i < |r| ==> |r[i]| < |locale| && r[i] == locale[..|r[i]|])
      && (forall i :: 0 <= i < |r| - 1 ==> |r[i + 1]| < |r[i]|)
  {
    var r := [f] + rest;
    forall i | 0 <= i < |r| ensures |r[i]| < |locale| && r[i] == locale[..|r[i]|] {
      if i > 0 {
        assert r[i] == rest[i - 1] == f[..|rest[i - 1]|];
      }
    }
    forall i | 0 <= i < |r| - 1 ensures |r[i + 1]| < |r[i]| {
      if i > 0 {
        assert r[i] == rest[i - 1] && r[i + 1] == rest[i];
      }
    }
  }

  /** The documented example of the chain. The locales are parameters pinned
      by `requires`, which keeps the solver from unfolding the literals. */
  lemma ChainExample(s0: string)
    requires s0 == "zh-Hant-CN-x-private1-private2"
    ensures Chain(s0) == ["zh-Hant-CN-x-private1"] + ["zh-Hant-CN", "zh-Hant", "zh"]
  {
    var s1 := "zh-Hant-CN-x-private1";
    Step(s0, s1, "private2");
    ChainOfStep(s0, s1);
    ChainFromPrivate1(s1);
  }

  lemma ChainFromPrivate1(s1: string)
    requires s1 == "zh-Hant-CN-x-private1"
    ensures Chain(s1) == ["zh-Hant-CN", "zh-Hant", "zh"]
  {
    var s2 := "zh-Hant-CN";
    PrivateSplit(s1, s2, "private1");
    StepOverMarker(s1, s2, "private1");
    ChainOfStep(s1, s2);
    ChainFromRegion(s2);
    assert [s2] + ["zh-Hant", "zh"] == ["zh-Hant-CN", "zh-Hant", "zh"];
  }

  lemma PrivateSplit(s1: string, s2: string, last: string)
    requires s1 == "zh-Hant-CN-x-private1" && s2 == "zh-Hant-CN" && last == "private1"
    ensures s1 == s2 + "-x" + "-" + last
  {
  }

  lemma ChainFromRegion(s2: string)
    requires s2 == "zh-Hant-CN"
    ensures Chain(s2) == ["zh-Hant", "zh"]
  {
    var s3 := "zh-Hant";
    Step(s2, s3, "CN");
    ChainOfStep(s2, s3);
    ChainFromScript(s3);
  }

  lemma ChainFromScript(s3: string)
    requires s3 == "zh-Hant"
    ensures Chain(s3) == ["zh"]
  {
    var s4 := "zh";
    Step(s3, s4, "Hant");
    ChainOfStep(s3, s4);
    assert '-' !in s4;
  }

  lemma ChainOfStep(locale: string, next: string)
    requires LookupFallback(locale) == Some(next)
    ensures Chain(locale) == [next] + Chain(next)
  {
  }

  /** One step of the documented chain: the last subtag is dropped. */
  lemma Step(s: string, base: string, last: string)
    requires base != [] && base[|base| - 1] != 'x' && '-' !in last
    requires s == base + "-" + last
    ensures LookupFallback(s) == Some(base)
  {
    FallbackStep(base, 0, last);
    assert base + Repeat("-x", 0) == base;
  }

  /** One step of the documented chain: the last subtag and the `-x` left
      before it are dropped. */
  lemma StepOverMarker(s: string, base: string, last: string)
    requires base != [] && base[|base| - 1] != 'x' && '-' !in last
    requires s == base + "-x" + "-" + last
    ensures LookupFallback(s) == Some(base)
  {
    FallbackStep(base, 1, last);
    assert Repeat("-x", 1) == "-x";
  }

  /** `LookupFallbackOfTruncated` for a base whose last character is not `x`. */
  lemma FallbackStep(base: string, markers: nat, last: string)
    requires base != [] && base[|base| - 1] != 'x'
    requires '-' !in last
    ensures LookupFallback(base + Repeat("-x", markers) + "-" + last) == Some(base)
  {
    assert !EndsWith(base, "-x") by {
      if |base| >= 2 {
        assert base[|base| - 2..][1] == base[|base| - 1];
      }
    }
    LookupFallbackOfTruncated(base, markers, last);
  }

  /** `locales[i]` is the first of `locales` with a text for `key`. */
  predicate HitFirstAt(backend: Store, locales: seq<string>, key: string, i: int) {
    && 0 <= i < |locales|
    && Get(backend, locales[i], key).Some?
    && forall j :: 0 <= j < i ==> Get(backend, locales[j], key).None?
  }

  /** The first locale of `locales` the backend has a text for `key` under. */
  function FirstHit(backend: Store, locales: seq<string>, key: string): (r: Option<string>)
    ensures r.None? <==> forall i :: 0 <= i < |locales| ==> Get(backend, locales[i], key).None?
    ensures r.Some? ==> exists i :: HitFirstAt(backend, locales, key, i) && Get(backend, locales[i], key) == r
  {
    if locales == [] then None
    else
      match Get(backend, locales[0], key)
      case Some(text) => Some(text)
      case None =>
        var r := FirstHit(backend, locales[1..], key);
        assert forall i :: 1 <= i < |locales| ==> locales[i] == locales[1..][i - 1];
        assert r.Some? ==> exists i :: HitFirstAt(backend, locales, key, i) && Get(backend, locales[i], key) == r by {
          if r.Some? {
            var i :| HitFirstAt(backend, locales[1..], key, i) && Get(backend, locales[1..][i], key) == r;
            assert Get(backend, locales[i + 1], key) == r;
            forall j | 0 <= j < i + 1 ensures Get(backend, locales[j], key).None? {
              if j > 0 { assert locales[j] == locales[1..][j - 1]; }
            }
          }
        }
        r
  }

  lemma {:induction false} FirstHitAppend(backend: Store, a: seq<string>, b: seq<string>, key: string)
    ensures FirstHit(backend, a + b, key) ==
      if FirstHit(backend, a, key).Some? then FirstHit(backend, a, key) else FirstHit(backend, b, key)
  {
    if a != [] {
      assert (a + b)[1..] == a[1..] + b;
      FirstHitAppend(backend, a[1..], b, key);
    } else {
      assert a + b == b;
    }
  }

  /** The probing order: the locale itself, its structural chain, then the
      declared fallback locales in the order declared. */
  function Candidates(locale: string, declared: Option<seq<string>>): seq<string> {
    [locale] + Chain(locale) + declared.GetOr([])
  }

  /** `_rust_i18n_try_translate`, with its loop over the structural fallbacks. */
  method TryTranslate(backend: Store, declared: Option<seq<string>>, locale: string, key: string) returns (r: Option<string>)
    ensures r == FirstHit(backend, Candidates(locale, declared), key)
  {
    var all := Candidates(locale, declared);
    FirstHitAppend(backend, [locale] + Chain(locale), declared.GetOr([]), key);
    FirstHitAppend(backend, [locale], Chain(locale), key);
    r := Get(backend, locale, key);
    if r.Some? {
      return;
    }
    var current := locale;
    while LookupFallback(current).Some?
      invariant FirstHit(backend, Chain(locale), key) == FirstHit(backend, Chain(current), key)
      decreases |current|
    {
      var next := LookupFallback(current).value;
      assert Chain(current) == [next] + Chain(next);
      var v := Get(backend, next, key);
      if v.Some? {
        return v;
      }
      current := next;
    }
    r := FirstHit(backend, declared.GetOr([]), key);
  }

  /** `_rust_i18n_translate`: the text found, or else the key itself for the
      empty locale and `locale.key` for any other. */
  method Translate(backend: Store, declared: Option<seq<string>>, locale: string, key: string) returns (r: string)
    ensures FirstHit(backend, Candidates(locale, declared), key).Some? ==>
      r == FirstHit(backend, Candidates(locale, declared), key).value
    ensures FirstHit(backend, Candidates(locale, declared), key).None? ==>
      r == if locale == [] then key else locale + "." + key
  {
    var found := TryTranslate(backend, declared, locale, key);
    if found.Some? {
      r := found.value;
    } else if locale == [] {
      r := key;
    } else {
      r := locale + "." + key;
    }
  }

  /** A locale without `-` (the empty one included) has no structural chain:
      only the locale itself and then the declared list are probed. */
  lemma FlatLocaleProbes(locale: string, declared: Option<seq<string>>)
    requires '-' !in locale
    ensures Candidates(locale, declared) == [locale] + declared.GetOr([])
  {
  }

  /** Nothing found anywhere: a miss under every candidate. */
  lemma MissEverywhere(backend: Store, declared: Option<seq<string>>, locale: string, key: string)
    requires forall l :: Get(backend, l, key).None?
    ensures FirstHit(backend, Candidates(locale, declared), key).None?
  {
  }
}
