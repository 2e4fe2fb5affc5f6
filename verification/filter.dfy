/** `filter_locales`: narrowing the exported locale set with `-l` tokens. A
    token starting with `+` adds a locale, one starting with `!` removes it,
    and any other token (the empty one included) names a locale to keep. */
module LocaleFilter {
  import opened Wrappers
  import opened Text

  predicate IsModifier(token: string) {
    StartsWith(token, "+") || StartsWith(token, "!")
  }

  /** The tokens without a `+`/`!` prefix, in the order given. */
  function Explicit(tokens: seq<string>): (r: seq<string>)
    ensures forall x :: x in r <==> x in tokens && !IsModifier(x)
  {
    if tokens == [] then []
    else
      var init := tokens[..|tokens| - 1];
      var last := tokens[|tokens| - 1];
      assert tokens == init + [last];
      Explicit(init) + (if IsModifier(last) then [] else [last])
  }

  /** The `+`/`!` tokens, in the order given. */
  function Modifiers(tokens: seq<string>): (r: seq<string>)
    ensures forall x :: x in r <==> x in tokens && IsModifier(x)
    ensures forall i :: 0 <= i < |r| ==> IsModifier(r[i])
  {
    if tokens == [] then []
    else
      var init := tokens[..|tokens| - 1];
      var last := tokens[|tokens| - 1];
      assert tokens == init + [last];
      Modifiers(init) + (if IsModifier(last) then [last] else [])
  }

  /** Keeping only the explicitly named locales, when any are named. */
  function Narrow(available: set<string>, explicit: seq<string>): (r: set<string>)
    ensures r <= available
    ensures forall x :: x in r <==> x in available && (explicit == [] || x in explicit)
  {
    if explicit == [] then available else set x | x in available && x in explicit
  }

  /** One modifier: `!l` removes `l`, `+l` inserts it. */
  function ApplyModifier(s: set<string>, token: string): (r: set<string>)
    ensures StartsWith(token, "!") ==> r == s - {token[1..]}
    ensures StartsWith(token, "+") ==> r == s + {token[1..]}
    ensures !IsModifier(token) ==> r == s
  {
    if StartsWith(token, "!") then s - {token[1..]}
    else if StartsWith(token, "+") then s + {token[1..]}
    else s
  }

  /** The modifiers applied one after the other, in the order given. */
  function ApplyModifiers(s: set<string>, mods: seq<string>): set<string> {
    if mods == [] then s
    else ApplyModifier(ApplyModifiers(s, mods[..|mods| - 1]), mods[|mods| - 1])
  }

  /** `filter_locales`. */
  function FilterLocales(available: set<string>, tokens: seq<string>): (r: set<string>)
    ensures tokens == [] ==> r == available
    ensures Modifiers(tokens) == [] ==> r <= available
  {
    ApplyModifiers(Narrow(available, Explicit(tokens)), Modifiers(tokens))
  }

  /** Reference reading of the modifiers: what the last one naming `x` says,
      `Some(true)` for `+x`, `Some(false)` for `!x`, `None` when none names `x`. */
  function LastModifier(x: string, mods: seq<string>): (r: Option<bool>)
    ensures r.Some? ==> exists i :: 0 <= i < |mods| && IsModifier(mods[i]) && mods[i][1..] == x
  {
    if mods == [] then None
    else
      var last := mods[|mods| - 1];
      if IsModifier(last) && last[1..] == x then Some(StartsWith(last, "+"))
      else
        var r := LastModifier(x, mods[..|mods| - 1]);
        assert r.Some? ==> exists i :: 0 <= i < |mods| && IsModifier(mods[i]) && mods[i][1..] == x by {
          if r.Some? {
            var i :| 0 <= i < |mods| - 1 && IsModifier(mods[..|mods| - 1][i]) && mods[..|mods| - 1][i][1..] == x;
            assert mods[i] == mods[..|mods| - 1][i];
          }
        }
        r
  }

  /** Applying the modifiers in order: for every locale the last modifier
      naming it wins, and a locale no modifier names keeps its membership. */
  lemma {:induction false} LastModifierWins(s: set<string>, mods: seq<string>, x: string)
    ensures x in ApplyModifiers(s, mods) <==>
      match LastModifier(x, mods)
      case Some(add) => add
      case None => x in s
  {
    if mods != [] {
      LastModifierWins(s, mods[..|mods| - 1], x);
    }
  }

  /** Setting the bare tokens aside keeps the modifiers in argument order: the
      last modifier naming `x` is the same among all the tokens. */
  lemma {:induction false} ModifiersKeepOrder(x: string, tokens: seq<string>)
    ensures LastModifier(x, Modifiers(tokens)) == LastModifier(x, tokens)
  {
    if tokens != [] {
      var init := tokens[..|tokens| - 1];
      var last := tokens[|tokens| - 1];
      ModifiersKeepOrder(x, init);
      var mods := Modifiers(init) + (if IsModifier(last) then [last] else []);
      assert Modifiers(tokens) == mods;
      if IsModifier(last) {
        assert mods[..|mods| - 1] == Modifiers(init);
      } else {
        assert mods == Modifiers(init);
      }
    }
  }

  /** The filter as a whole: membership is decided by the last modifier among
      the tokens naming the locale, else by the narrowed set. */
  lemma FilterLocalesMembership(available: set<string>, tokens: seq<string>, x: string)
    ensures x in FilterLocales(available, tokens) <==>
      match LastModifier(x, tokens)
      case Some(add) => add
      case None => x in available && (Explicit(tokens) == [] || (x in tokens && !IsModifier(x)))
  {
    var narrowed := Narrow(available, Explicit(tokens));
    LastModifierWins(narrowed, Modifiers(tokens), x);
    ModifiersKeepOrder(x, tokens);
    assert x in narrowed <==> x in available && (Explicit(tokens) == [] || (x in tokens && !IsModifier(x)));
  }

  /** `+l` adds `l` even when nothing declared it: the example `-l en,+es`
      over `{en, fr}` exports exactly `en` and `es`. */
  lemma IncludeAndAdd()
    ensures FilterLocales({"en", "fr"}, ["en", "+es"]) == {"en", "es"}
  {
    var tokens := ["en", "+es"];
    assert tokens[..1] == ["en"] && tokens[..0] == [];
    assert !IsModifier("en") by { assert "en"[..1] == "e"; }
    assert IsModifier("+es") by { assert "+es"[..1] == "+"; }
    assert Explicit(tokens) == ["en"];
    assert Modifiers(tokens) == ["+es"];
    assert Narrow({"en", "fr"}, ["en"]) == {"en"};
    assert ["+es"][..0] == [];
    assert "+es"[1..] == "es";
  }

  /** The example `-l +es,!fr`: every locale but `fr`, plus `es`. */
  lemma ExcludeAndAdd()
    ensures FilterLocales({"en", "fr"}, ["+es", "!fr"]) == {"en", "es"}
  {
    var tokens := ["+es", "!fr"];
    assert tokens[..1] == ["+es"] && tokens[..0] == [];
    assert StartsWith("+es", "+") && !StartsWith("+es", "!") by { assert "+es"[..1] == "+"; }
    assert StartsWith("!fr", "!") by { assert "!fr"[..1] == "!"; }
    assert Explicit(tokens) == [];
    assert Modifiers(tokens) == tokens;
    assert "+es"[1..] == "es" && "!fr"[1..] == "fr";
    assert Narrow({"en", "fr"}, []) == {"en", "fr"};
    assert ApplyModifiers({"en", "fr"}, ["+es"]) == {"en", "fr", "es"};
    assert ApplyModifiers({"en", "fr"}, tokens) == ApplyModifier({"en", "fr", "es"}, "!fr");
  }
}
