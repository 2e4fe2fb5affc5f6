/** The arguments of the `i18n!` macro (`Args`): hard defaults, then the
    project metadata, then the positional locales path, then the named
    options from left to right. Token parsing is abstracted: the input is the
    optional path literal followed by the list of `name = value` options,
    where the value may be missing (`name =` directly before a `,` or the end). */
module MacroArgs {
  import opened Wrappers
  import opened Settings

  /** An option's value, as far as the parser tells values apart. */
  datatype Value =
    | LitStr(s: string)
    | LitBool(b: bool)
    | LitInt(n: nat)
    | ArrayExpr(elems: seq<Value>)
    | OtherExpr
    | Absent

  /** One `name = value` option; `Absent` stands for no tokens after the `=`. */
  datatype Opt = Opt(name: string, value: Value)

  /** The macro input: an optional path literal, the options that follow it,
      and whether a `,` follows the last of them. */
  datatype MacroInput = MacroInput(path: Option<string>, options: seq<Opt>, trailingComma: bool)

  datatype Args = Args(
    localesPath: string,
    defaultLocale: Option<string>,
    fallback: Option<seq<string>>,
    extend: Option<Value>,
    minify: MinifySettings)

  /** What `load_metadata` finds: no `CARGO_MANIFEST_DIR`, a Cargo.toml it
      cannot load, or the loaded settings. */
  datatype Metadata = NoManifestDir | LoadFailed | Loaded(cfg: Config)

  /** The largest `usize` on a 64-bit target. */
  const UsizeMax: nat := 0xFFFF_FFFF_FFFF_FFFF

  /** `load_metadata`: the loaded settings replace the path, the default
      locale and the minify settings, and the fallback only when the
      configured list is non-empty. */
  function LoadMetadata(a: Args, md: Metadata, debug: bool): (r: Result<Args>)
    ensures r.Failure? <==> md.LoadFailed? || (md.NoManifestDir? && debug)
    ensures md.LoadFailed? ==> r == Failure("Failed to load config from Cargo.toml for `metadata`")
    ensures md.NoManifestDir? ==> r == if debug then Failure("The CARGO_MANIFEST_DIR is required fo `metadata`") else Success(a)
    ensures md.Loaded? ==> r.Success? && r.value.localesPath == md.cfg.loadPath
    ensures md.Loaded? ==> r.Success? && r.value.defaultLocale == Some(md.cfg.defaultLocale)
    ensures md.Loaded? ==> r.Success? && r.value.minify == md.cfg.minify
    ensures md.Loaded? ==> r.Success? && r.value.fallback == if md.cfg.fallback == [] then a.fallback else Some(md.cfg.fallback)
    ensures md.Loaded? ==> r.Success? && r.value.extend == a.extend
  {
    match md
    case NoManifestDir => if debug then Failure("The CARGO_MANIFEST_DIR is required fo `metadata`") else Success(a)
    case LoadFailed => Failure("Failed to load config from Cargo.toml for `metadata`")
    case Loaded(cfg) =>
      Success(Args(
        cfg.loadPath,
        Some(cfg.defaultLocale),
        if cfg.fallback != [] then Some(cfg.fallback) else a.fallback,
        a.extend,
        cfg.minify))
  }

  const FallbackError: string := "`fallback` must be a string literal or an array of string literals"

  /** Every element is a string literal. */
  predicate AllStrings(elems: seq<Value>) {
    forall i :: 0 <= i < |elems| ==> elems[i].LitStr?
  }

  /** `consume_fallback`: a string literal is a one-locale list; an array must
      hold string literals only; anything else is an error. */
  function ConsumeFallback(v: Value): (r: Result<seq<string>>)
    ensures r.Success? <==> v.LitStr? || (v.ArrayExpr? && AllStrings(v.elems))
    ensures v.LitStr? ==> r == Success([v.s])
    ensures r.Success? && v.ArrayExpr? ==>
      |r.value| == |v.elems| && forall i :: 0 <= i < |v.elems| ==> r.value[i] == v.elems[i].s
  {
    match v
    case LitStr(s) => Success([s])
    case ArrayExpr(elems) =>
      if AllStrings(elems) then Success(seq(|elems|, i requires 0 <= i < |elems| => elems[i].s))
      else Failure(FallbackError)
    case _ => Failure("expected array literal")
  }

  /** `base10_parse::<usize>`: a literal that does not fit is an error. */
  function ParseUsize(v: Value): (r: Result<nat>)
    ensures r.Success? <==> v.LitInt? && v.n <= UsizeMax
    ensures r.Success? ==> r.value == v.n
  {
    match v
    case LitInt(n) => if n <= UsizeMax then Success(n) else Failure("number too large to fit in target type")
    case _ => Failure("expected integer literal")
  }

  predicate IsKnownOption(name: string) {
    name in ["fallback", "backend", "minify_key", "minify_key_len", "minify_key_prefix", "minify_key_thresh"]
  }

  /** An option that `consume_options` accepts: a recognised name whose value
      has the form the name calls for, or an unrecognised name with no value,
      which the parser passes over. */
  predicate WellTyped(o: Opt) {
    match o.name
    case "fallback" => ConsumeFallback(o.value).Success?
    case "backend" => !o.value.Absent?
    case "minify_key" => o.value.LitBool?
    case "minify_key_len" => ParseUsize(o.value).Success?
    case "minify_key_prefix" => o.value.LitStr?
    case "minify_key_thresh" => ParseUsize(o.value).Success?
    case _ => o.value.Absent?
  }

  /** An unrecognised name followed by a value: the parser consumes nothing
      after its `=`, so option parsing stops there. */
  predicate Stops(o: Opt) {
    !IsKnownOption(o.name) && !o.value.Absent?
  }

  /** The position of the first option that stops parsing, or `|opts|`. */
  function StopAt(opts: seq<Opt>): (n: nat)
    ensures n <= |opts|
    ensures forall i :: 0 <= i < n ==> !Stops(opts[i])
    ensures n < |opts| ==> Stops(opts[n])
  {
    if opts == [] then 0
    else if Stops(opts[0]) then 0
    else
      var n := StopAt(opts[1..]);
      assert forall i :: 1 <= i < |opts| ==> opts[i] == opts[1..][i - 1];
      1 + n
  }

  /** One recognised option applied to the arguments. */
  function ConsumeOption(a: Args, o: Opt): (r: Result<Args>)
    requires IsKnownOption(o.name)
    ensures r.Success? <==> WellTyped(o)
    ensures r.Success? ==> r.value.localesPath == a.localesPath && r.value.defaultLocale == a.defaultLocale
  {
    match o.name
    case "fallback" =>
      var list :- ConsumeFallback(o.value);
      Success(a.(fallback := Some(list)))
    case "backend" =>
      if o.value.Absent? then Failure("expected an expression")
      else Success(a.(extend := Some(o.value)))
    case "minify_key" =>
      if o.value.LitBool? then Success(a.(minify := a.minify.(enabled := o.value.b)))
      else Failure("expected boolean literal")
    case "minify_key_len" =>
      var n :- ParseUsize(o.value);
      Success(a.(minify := a.minify.(len := n)))
    case "minify_key_prefix" =>
      if o.value.LitStr? then Success(a.(minify := a.minify.(prefix := o.value.s)))
      else Failure("expected string literal")
    case "minify_key_thresh" =>
      var n :- ParseUsize(o.value);
      Success(a.(minify := a.minify.(thresh := n)))
  }

  /** The arguments after the options, and the options left unconsumed. */
  datatype Consumed = Consumed(args: Args, rest: seq<Opt>)

  /** `consume_options`: options are applied from left to right; an option
      whose name is not recognised consumes nothing after its `=`, so with a
      value after it consumption stops there and the rest is left over, while
      without one the next `,` continues with the following option. */
  function ConsumeOptions(a: Args, opts: seq<Opt>): (r: Result<Consumed>)
    ensures r.Success? <==> forall i :: 0 <= i < StopAt(opts) ==> WellTyped(opts[i])
    ensures r.Success? ==> r.value.rest == opts[StopAt(opts)..]
    ensures r.Success? && r.value.rest != [] ==>
      |r.value.rest| <= |opts| && r.value.rest == opts[|opts| - |r.value.rest|..] && !IsKnownOption(r.value.rest[0].name)
    ensures r.Success? ==> |r.value.rest| <= |opts| && forall i :: 0 <= i < |opts| - |r.value.rest| ==> WellTyped(opts[i])
    ensures r.Success? ==> r.value.args.localesPath == a.localesPath && r.value.args.defaultLocale == a.defaultLocale
    decreases |opts|
  {
    if opts == [] then Success(Consumed(a, []))
    else if Stops(opts[0]) then Success(Consumed(a, opts))
    else
      var next :- Consume(a, opts[0]);
      var r := ConsumeOptions(next, opts[1..]);
      TailSuffix(opts, |opts| - StopAt(opts));
      r
  }

  /** One option that does not stop parsing: a recognised one is applied, an
      unrecognised one without a value leaves the arguments as they were. */
  function Consume(a: Args, o: Opt): (r: Result<Args>)
    requires !Stops(o)
    ensures r.Success? <==> WellTyped(o)
    ensures r.Success? ==> r.value.localesPath == a.localesPath && r.value.defaultLocale == a.defaultLocale
  {
    if IsKnownOption(o.name) then ConsumeOption(a, o) else Success(a)
  }

  /** A suffix of the tail is a suffix of the whole, and the tail's elements
      are the whole's shifted by one. */
  lemma TailSuffix<T>(s: seq<T>, n: nat)
    requires s != [] && n < |s|
    ensures s[1..][|s| - 1 - n..] == s[|s| - n..]
    ensures forall i :: 1 <= i < |s| ==> s[i] == s[1..][i - 1]
  {
  }

  /** Reference reading of the options: the value of the last one named
      `name`, if any. */
  function LastNamed(opts: seq<Opt>, name: string): (r: Option<Value>)
    ensures r.None? <==> forall i :: 0 <= i < |opts| ==> opts[i].name != name
    ensures r.Some? ==> exists i :: 0 <= i < |opts| && opts[i] == Opt(name, r.value)
  {
    if opts == [] then None
    else
      match LastNamed(opts[1..], name)
      case Some(v) =>
        assert forall i :: 1 <= i < |opts| ==> opts[i] == opts[1..][i - 1];
        Some(v)
      case None =>
        assert forall i :: 1 <= i < |opts| ==> opts[i] == opts[1..][i - 1];
        if opts[0].name == name then Some(opts[0].value) else None
  }

  /** The setting the last option named `name` gives, read by `pick`, or
      `base` when no option names it or its value does not read. */
  function Latest<T>(opts: seq<Opt>, name: string, base: T, pick: Value -> Option<T>): T {
    match LastNamed(opts, name)
    case Some(v) => pick(v).GetOr(base)
    case None => base
  }

  function PickFallback(v: Value): Option<Option<seq<string>>> {
    if ConsumeFallback(v).Success? then Some(Some(ConsumeFallback(v).value)) else None
  }

  function PickExtend(v: Value): Option<Option<Value>> {
    Some(Some(v))
  }

  function PickBool(v: Value): Option<bool> {
    if v.LitBool? then Some(v.b) else None
  }

  function PickInt(v: Value): Option<nat> {
    if v.LitInt? then Some(v.n) else None
  }

  function PickStr(v: Value): Option<string> {
    if v.LitStr? then Some(v.s) else None
  }

  /** The arguments with the options' settings laid over them, each field
      taking the value of the last option naming it. */
  function Overlay(a: Args, opts: seq<Opt>): Args {
    Args(
      a.localesPath,
      a.defaultLocale,
      Latest(opts, "fallback", a.fallback, PickFallback),
      Latest(opts, "backend", a.extend, PickExtend),
      MinifySettings(
        Latest(opts, "minify_key", a.minify.enabled, PickBool),
        Latest(opts, "minify_key_len", a.minify.len, PickInt),
        Latest(opts, "minify_key_prefix", a.minify.prefix, PickStr),
        Latest(opts, "minify_key_thresh", a.minify.thresh, PickInt)))
  }

  /** One field across one option: applying the first option to the base and
      overlaying the rest equals overlaying them all, provided every later
      option naming the field reads. */
  lemma LatestStep<T>(opts: seq<Opt>, name: string, base: T, pick: Value -> Option<T>, stepped: T)
    requires opts != []
    requires opts[0].name == name ==> pick(opts[0].value) == Some(stepped)
    requires opts[0].name != name ==> stepped == base
    requires forall i :: 1 <= i < |opts| && opts[i].name == name ==> pick(opts[i].value).Some?
    ensures Latest(opts[1..], name, stepped, pick) == Latest(opts, name, base, pick)
  {
    var later := opts[1..];
    match LastNamed(later, name)
    case Some(v) =>
      var i :| 0 <= i < |later| && later[i] == Opt(name, v);
      assert later[i] == opts[i + 1];
    case None =>
  }

  /** Options that are all consumed leave each field as the last option
      naming it says, and every other field as it was: later duplicates win. */
  lemma {:induction false} ConsumeOptionsLastWins(a: Args, opts: seq<Opt>)
    requires ConsumeOptions(a, opts).Success? && ConsumeOptions(a, opts).value.rest == []
    ensures ConsumeOptions(a, opts).value.args == Overlay(a, opts)
    decreases |opts|
  {
    if opts != [] {
      var next := Consume(a, opts[0]).value;
      ConsumeOptionsLastWins(next, opts[1..]);
      assert forall i :: 0 <= i < |opts[1..]| ==> opts[1..][i] == opts[i + 1];
      OverlayStep(a, opts, next);
    }
  }

  lemma OverlayStep(a: Args, opts: seq<Opt>, next: Args)
    requires opts != [] && !Stops(opts[0])
    requires Consume(a, opts[0]) == Success(next)
    requires forall i :: 1 <= i < |opts| ==> WellTyped(opts[i])
    ensures Overlay(next, opts[1..]) == Overlay(a, opts)
  {
    FallbackFieldStep(a, opts, next);
    ExtendStep(a, opts, next);
    EnabledStep(a, opts, next);
    LenStep(a, opts, next);
    PrefixStep(a, opts, next);
    ThreshStep(a, opts, next);
  }

  lemma FallbackFieldStep(a: Args, opts: seq<Opt>, next: Args)
    requires opts != [] && !Stops(opts[0])
    requires Consume(a, opts[0]) == Success(next)
    requires forall i :: 1 <= i < |opts| ==> WellTyped(opts[i])
    ensures Latest(opts[1..], "fallback", next.fallback, PickFallback) == Latest(opts, "fallback", a.fallback, PickFallback)
  {
    LatestStep(opts, "fallback", a.fallback, PickFallback, next.fallback);
  }

  lemma ExtendStep(a: Args, opts: seq<Opt>, next: Args)
    requires opts != [] && !Stops(opts[0])
    requires Consume(a, opts[0]) == Success(next)
    ensures Latest(opts[1..], "backend", next.extend, PickExtend) == Latest(opts, "backend", a.extend, PickExtend)
  {
    LatestStep(opts, "backend", a.extend, PickExtend, next.extend);
  }

  lemma EnabledStep(a: Args, opts: seq<Opt>, next: Args)
    requires opts != [] && !Stops(opts[0])
    requires Consume(a, opts[0]) == Success(next)
    requires forall i :: 1 <= i < |opts| ==> WellTyped(opts[i])
    ensures Latest(opts[1..], "minify_key", next.minify.enabled, PickBool) == Latest(opts, "minify_key", a.minify.enabled, PickBool)
  {
    LatestStep(opts, "minify_key", a.minify.enabled, PickBool, next.minify.enabled);
  }

  lemma LenStep(a: Args, opts: seq<Opt>, next: Args)
    requires opts != [] && !Stops(opts[0])
    requires Consume(a, opts[0]) == Success(next)
    requires forall i :: 1 <= i < |opts| ==> WellTyped(opts[i])
    ensures Latest(opts[1..], "minify_key_len", next.minify.len, PickInt) == Latest(opts, "minify_key_len", a.minify.len, PickInt)
  {
    LatestStep(opts, "minify_key_len", a.minify.len, PickInt, next.minify.len);
  }

  lemma PrefixStep(a: Args, opts: seq<Opt>, next: Args)
    requires opts != [] && !Stops(opts[0])
    requires Consume(a, opts[0]) == Success(next)
    requires forall i :: 1 <= i < |opts| ==> WellTyped(opts[i])
    ensures Latest(opts[1..], "minify_key_prefix", next.minify.prefix, PickStr) == Latest(opts, "minify_key_prefix", a.minify.prefix, PickStr)
  {
    LatestStep(opts, "minify_key_prefix", a.minify.prefix, PickStr, next.minify.prefix);
  }

  lemma ThreshStep(a: Args, opts: seq<Opt>, next: Args)
    requires opts != [] && !Stops(opts[0])
    requires Consume(a, opts[0]) == Success(next)
    requires forall i :: 1 <= i < |opts| ==> WellTyped(opts[i])
    ensures Latest(opts[1..], "minify_key_thresh", next.minify.thresh, PickInt) == Latest(opts, "minify_key_thresh", a.minify.thresh, PickInt)
  {
    LatestStep(opts, "minify_key_thresh", a.minify.thresh, PickInt, next.minify.thresh);
  }

  /** `Args::parse` on the whole macro input. The defaults for the minify
      settings come from the support crate and are a parameter here. A
      trailing `,` makes the parser expect one more option name; options left
      unconsumed are rejected because the whole input must be parsed. The
      input is accepted exactly when the metadata loads, every option is
      accepted and no `,` dangles at the end. */
  function ParseMacroInput(input: MacroInput, md: Metadata, debug: bool, defaults: MinifySettings): (r: Result<Args>)
    ensures r.Success? <==>
      && !md.LoadFailed? && !(md.NoManifestDir? && debug)
      && (forall i :: 0 <= i < |input.options| ==> WellTyped(input.options[i]))
      && !input.trailingComma
    ensures r.Success? ==> r.value.localesPath == (if input.path.Some? then input.path.value else if md.Loaded? then md.cfg.loadPath else "locales")
    ensures r.Success? ==> r.value.defaultLocale == (if md.Loaded? then Some(md.cfg.defaultLocale) else None)
  {
    var initial := Args("locales", None, None, None, defaults);
    var loaded :- LoadMetadata(initial, md, debug);
    var withPath := if input.path.Some? then loaded.(localesPath := input.path.value) else loaded;
    AllAcceptedMeansNoStop(input.options);
    if input.path.None? && input.options == [] then
      if input.trailingComma then Failure("unexpected token") else Success(withPath)
    else
      var consumed :- ConsumeOptions(withPath, input.options);
      if consumed.rest != [] then Failure("unexpected token")
      else if input.trailingComma then Failure("expected identifier")
      else Success(consumed.args)
  }

  /** Options that are all accepted run to the end: none of them stops. */
  lemma AllAcceptedMeansNoStop(opts: seq<Opt>)
    ensures (forall i :: 0 <= i < |opts| ==> WellTyped(opts[i])) <==>
      StopAt(opts) == |opts| && forall i :: 0 <= i < StopAt(opts) ==> WellTyped(opts[i])
  {
    var n := StopAt(opts);
    if n < |opts| {
      StopsNotAccepted(opts[n]);
    }
  }

  lemma StopsNotAccepted(o: Opt)
    requires Stops(o)
    ensures !WellTyped(o)
  {
  }

  /** An unknown name with nothing after its `=` is passed over:
      `i18n!("locales", foo =)` is accepted and changes nothing. The name is
      a parameter pinned by `requires`, which keeps the proof small. */
  lemma ValuelessUnknownAccepted(md: Metadata, debug: bool, defaults: MinifySettings, name: string)
    requires name == "foo"
    requires !md.LoadFailed? && !(md.NoManifestDir? && debug)
    ensures var r := ParseMacroInput(MacroInput(Some("locales"), [Opt(name, Absent)], false), md, debug, defaults);
      r.Success? && r == ParseMacroInput(MacroInput(Some("locales"), [], false), md, debug, defaults)
  {
    assert !IsKnownOption(name);
    assert WellTyped(Opt(name, Absent));
  }

  /** An unknown name with nothing after its `=`, inserted anywhere among the
      options, leaves the outcome as it was: the same acceptance and the same
      arguments. */
  lemma ValuelessUnknownIgnored(input: MacroInput, j: nat, name: string, md: Metadata, debug: bool, defaults: MinifySettings)
    requires j <= |input.options|
    requires !IsKnownOption(name)
    ensures var wider := input.(options := input.options[..j] + [Opt(name, Absent)] + input.options[j..]);
      var r, r' := ParseMacroInput(wider, md, debug, defaults), ParseMacroInput(input, md, debug, defaults);
      && (r.Success? <==> r'.Success?)
      && (r.Success? ==> r.value == r'.value)
  {
    var opts := input.options;
    InsertedValuelessTyped(opts, j, name);
    var initial := Args("locales", None, None, None, defaults);
    var loaded := LoadMetadata(initial, md, debug);
    if loaded.Success? {
      var withPath := if input.path.Some? then loaded.value.(localesPath := input.path.value) else loaded.value;
      assert opts == opts[..j] + opts[j..];
      ConsumeSkipsValueless(withPath, opts[..j], opts[j..], name);
      if input.path.None? && opts == [] {
        assert ConsumeOptions(withPath, []) == Success(Consumed(withPath, []));
      }
    }
  }

  /** The inserted option is well typed, so the wider list is all well typed
      exactly when the original is. */
  lemma InsertedValuelessTyped(opts: seq<Opt>, j: nat, name: string)
    requires j <= |opts|
    requires !IsKnownOption(name)
    ensures var wider := opts[..j] + [Opt(name, Absent)] + opts[j..];
      (forall i :: 0 <= i < |wider| ==> WellTyped(wider[i])) <==> (forall i :: 0 <= i < |opts| ==> WellTyped(opts[i]))
  {
    var wider := opts[..j] + [Opt(name, Absent)] + opts[j..];
    assert WellTyped(Opt(name, Absent));
    assert forall i :: 0 <= i < |wider| ==> wider[i] == Opt(name, Absent) || wider[i] in opts;
    assert forall i :: 0 <= i < |opts| ==> opts[i] in wider;
  }

  /** Consuming with a valueless unknown option inserted: the same acceptance,
      the same arguments, and leftover options exactly when there were some. */
  lemma {:induction false} ConsumeSkipsValueless(a: Args, xs: seq<Opt>, ys: seq<Opt>, name: string)
    requires !IsKnownOption(name)
    ensures var r, r' := ConsumeOptions(a, xs + [Opt(name, Absent)] + ys), ConsumeOptions(a, xs + ys);
      && (r.Success? <==> r'.Success?)
      && (r.Success? ==> r.value.args == r'.value.args && (r.value.rest == [] <==> r'.value.rest == []))
    decreases |xs|
  {
    var u := Opt(name, Absent);
    if xs == [] {
      assert xs + [u] + ys == [u] + ys && ([u] + ys)[1..] == ys && xs + ys == ys;
      assert !Stops(u);
    } else {
      var x := xs[0];
      assert (xs + [u] + ys)[0] == x && (xs + [u] + ys)[1..] == xs[1..] + [u] + ys;
      assert (xs + ys)[0] == x && (xs + ys)[1..] == xs[1..] + ys;
      if !Stops(x) {
        var next := Consume(a, x);
        if next.Success? {
          ConsumeSkipsValueless(next.value, xs[1..], ys, name);
        }
      }
    }
  }

  /** The layered precedence: every setting comes from the last option naming
      it, else from the loaded metadata, else from the hard default; the
      fallback list comes from the metadata only when it is non-empty. */
  lemma ParsePrecedence(input: MacroInput, md: Metadata, debug: bool, defaults: MinifySettings)
    requires ParseMacroInput(input, md, debug, defaults).Success?
    ensures var a := ParseMacroInput(input, md, debug, defaults).value;
      var base := if md.Loaded? then md.cfg.minify else defaults;
      && a.minify.enabled == Latest(input.options, "minify_key", base.enabled, PickBool)
      && a.minify.len == Latest(input.options, "minify_key_len", base.len, PickInt)
      && a.minify.prefix == Latest(input.options, "minify_key_prefix", base.prefix, PickStr)
      && a.minify.thresh == Latest(input.options, "minify_key_thresh", base.thresh, PickInt)
      && a.extend == LastNamed(input.options, "backend")
      && (LastNamed(input.options, "fallback").Some? ==>
            a.fallback == Some(ConsumeFallback(LastNamed(input.options, "fallback").value).value))
      && (LastNamed(input.options, "fallback").None? ==>
            a.fallback == if md.Loaded? && md.cfg.fallback != [] then Some(md.cfg.fallback) else None)
  {
    var w := Prepared(input, md, debug, defaults);
    if input.options != [] {
      ConsumeOptionsLastWins(w, input.options);
      LatestFallbackReads(input.options);
    }
  }

  /** The arguments before any option is applied, and how the parse result
      relates to them. */
  lemma Prepared(input: MacroInput, md: Metadata, debug: bool, defaults: MinifySettings) returns (w: Args)
    requires ParseMacroInput(input, md, debug, defaults).Success?
    ensures w.minify == if md.Loaded? then md.cfg.minify else defaults
    ensures w.extend == None
    ensures w.fallback == if md.Loaded? && md.cfg.fallback != [] then Some(md.cfg.fallback) else None
    ensures input.options == [] ==> ParseMacroInput(input, md, debug, defaults).value == w
    ensures input.options != [] ==>
      && ConsumeOptions(w, input.options).Success?
      && ConsumeOptions(w, input.options).value.rest == []
      && ParseMacroInput(input, md, debug, defaults).value == ConsumeOptions(w, input.options).value.args
  {
    var initial := Args("locales", None, None, None, defaults);
    var loaded := LoadMetadata(initial, md, debug).value;
    w := if input.path.Some? then loaded.(localesPath := input.path.value) else loaded;
  }

  /** A consumed fallback option always reads. */
  lemma LatestFallbackReads(opts: seq<Opt>)
    requires forall i :: 0 <= i < |opts| ==> WellTyped(opts[i])
    ensures LastNamed(opts, "fallback").Some? ==> ConsumeFallback(LastNamed(opts, "fallback").value).Success?
  {
  }

  /** An unknown name given a value, the documented `metadata` option
      included, makes the whole input an error. */
  lemma UnknownOptionRejected(input: MacroInput, md: Metadata, debug: bool, defaults: MinifySettings, j: nat)
    requires j < |input.options| && Stops(input.options[j])
    ensures ParseMacroInput(input, md, debug, defaults).Failure?
  {
    var initial := Args("locales", None, None, None, defaults);
    var r := LoadMetadata(initial, md, debug);
    if r.Success? {
      var withPath := if input.path.Some? then r.value.(localesPath := input.path.value) else r.value;
      NoUnknownConsumed(withPath, input.options, j);
    }
  }

  lemma {:induction false} NoUnknownConsumed(a: Args, opts: seq<Opt>, j: nat)
    requires j < |opts| && Stops(opts[j])
    ensures ConsumeOptions(a, opts).Success? ==> ConsumeOptions(a, opts).value.rest != []
    decreases j
  {
    if j > 0 && !Stops(opts[0]) {
      var next := Consume(a, opts[0]);
      if next.Success? {
        assert opts[1..][j - 1] == opts[j];
        NoUnknownConsumed(next.value, opts[1..], j - 1);
      }
    }
  }

  /** `minify_key_len` is stored as written: any literal that fits a `usize`
      is accepted, with no check against the documented range 0 to 24. */
  lemma MinifyLenUnchecked(path: Option<string>, md: Metadata, debug: bool, defaults: MinifySettings, n: nat)
    requires n <= UsizeMax
    requires !md.LoadFailed? && !(md.NoManifestDir? && debug)
    ensures var input := MacroInput(path, [Opt("minify_key_len", LitInt(n))], false);
      var r := ParseMacroInput(input, md, debug, defaults);
      r.Success? && r.value.minify.len == n
  {
    var opts := [Opt("minify_key_len", LitInt(n))];
    var initial := Args("locales", None, None, None, defaults);
    var loaded := LoadMetadata(initial, md, debug).value;
    var withPath := if path.Some? then loaded.(localesPath := path.value) else loaded;
    var next := ConsumeOption(withPath, opts[0]);
    assert next == Success(withPath.(minify := withPath.minify.(len := n)));
    assert opts[1..] == [];
    assert ConsumeOptions(withPath, opts) == Success(Consumed(next.value, []));
  }

  /** `fallback = "en"` is the one-locale list `["en"]`, and an array holding
      anything but string literals is rejected. */
  lemma FallbackForms()
    ensures ConsumeFallback(LitStr("en")) == Success(["en"])
    ensures ConsumeFallback(ArrayExpr([LitStr("en"), LitStr("es")])) == Success(["en", "es"])
    ensures ConsumeFallback(ArrayExpr([LitStr("en"), OtherExpr])) == Failure(FallbackError)
  {
    var two := [LitStr("en"), LitStr("es")];
    assert AllStrings(two);
    var r := ConsumeFallback(ArrayExpr(two)).value;
    assert |r| == 2 && r[0] == "en" && r[1] == "es";
    assert r == ["en", "es"];
    assert !AllStrings([LitStr("en"), OtherExpr]) by {
      assert ![LitStr("en"), OtherExpr][1].LitStr?;
    }
  }
}
