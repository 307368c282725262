/** The decisions of the command-line entry point: which processor class a
    name selects, which API key is used, which command-line values override
    the configuration, and when Word output rebuilds Word input in place. */
module Cli {
  import opened Common
  import opened Text
  import opened Paths
  import opened Config
  import opened Processors

  // -----------------------------------------------------------------------
  // Processor dispatch

  /** The class `load_processor_class` returns. The free-prompt processor
      has no kind of its own in this model. */
  datatype ProcessorClass = Class(kind: Kind) | CustomPromptClass

  /** The name used when the configuration names no processor. */
  const DefaultProcessorName := "Reviewer"

  const KnownNames: set<string> :=
    {"ScientificReviewer", "Translator", "Reporter", "Summariser", "CustomPromptProcessor", "", "GrammarReviewer"}

  /** `load_processor_class`. */
  function LoadProcessorClass(name: string): Result<ProcessorClass> {
    if name == "ScientificReviewer" then Ok(Class(Scientific))
    else if name == "Translator" then Ok(Class(Translator))
    else if name == "Reporter" then Ok(Class(Reporter))
    else if name == "Summariser" then Ok(Class(Summariser))
    else if name == "CustomPromptProcessor" then Ok(CustomPromptClass)
    else if name == "" || name == "GrammarReviewer" then Ok(Class(Grammar))
    else Fail(ValueError("Unrecognised processor type: " + name))
  }

  /** Exactly the seven known names load a class; the empty name and
      "GrammarReviewer" both give the grammar reviewer; every other name,
      the default "Reviewer" included, raises `ValueError` naming it. No
      name loads the reviewer class itself. */
  lemma LoadProcessorClassSpec(name: string)
    ensures LoadProcessorClass(name).Ok? <==> name in KnownNames
    ensures name == "" || name == "GrammarReviewer" ==> LoadProcessorClass(name) == Ok(Class(Grammar))
    ensures LoadProcessorClass(name).Fail? ==> LoadProcessorClass(name).error == ValueError("Unrecognised processor type: " + name)
    ensures LoadProcessorClass(name) != Ok(Class(Reviewer))
    ensures LoadProcessorClass(DefaultProcessorName).Fail?
  {
  }

  /** Distinct known names load distinct classes, except the two spellings
      of the grammar reviewer. */
  lemma LoadProcessorClassInjective(a: string, b: string)
    requires LoadProcessorClass(a).Ok? && LoadProcessorClass(a) == LoadProcessorClass(b)
    ensures a == b || {a, b} == {"", "GrammarReviewer"}
  {
  }

  // -----------------------------------------------------------------------
  // The API key

  /** Python truthiness of a configuration value; `None` is falsy. */
  predicate NodeTruthy(v: Option<Node>) {
    match v
    case None => false
    case Some(Dict(m)) => |m| > 0
    case Some(Str(s)) => s != ""
    case Some(Number(n)) => n != 0
    case Some(Items(xs)) => |xs| > 0
  }

  const PlaceholderKey := "YOUR-OPENAI-API-KEY"

  const NoKeyMessage := "Valid API key not found. Provide it via CLI or in the YAML config."

  /** `args.api_key or config.get("openai.api_key")`, rejected when falsy
      or the placeholder of the sample configuration. */
  function ChooseApiKey(cli: Option<string>, configured: Option<Node>): Result<Node> {
    var key := if Truthy(cli) then Some(Str(cli.value)) else configured;
    if !NodeTruthy(key) || key == Some(Str(PlaceholderKey)) then Fail(ValueError(NoKeyMessage))
    else Ok(key.value)
  }

  /** A non-empty command-line key wins over the configured one; either
      way a missing, empty or placeholder key raises `ValueError`. */
  lemma ApiKeySpec(cli: Option<string>, configured: Option<Node>)
    ensures Truthy(cli) ==>
      ChooseApiKey(cli, configured) == if cli.value == PlaceholderKey then Fail(ValueError(NoKeyMessage)) else Ok(Str(cli.value))
    ensures !Truthy(cli) ==>
      (ChooseApiKey(cli, configured).Ok? <==> NodeTruthy(configured) && configured != Some(Str(PlaceholderKey)))
    ensures ChooseApiKey(cli, configured).Ok? ==> NodeTruthy(Some(ChooseApiKey(cli, configured).value))
    ensures ChooseApiKey(cli, configured).Fail? ==> ChooseApiKey(cli, configured).error == ValueError(NoKeyMessage)
  {
  }

  // -----------------------------------------------------------------------
  // Configuration overrides

  /** The command-line options that reach the configuration. */
  datatype Args = Args(
    inputDir: Option<string>,
    outputDir: Option<string>,
    headingStyles: Option<seq<string>>,
    prompt: Option<string>,
    additionalPrompt: Option<string>,
    processor: Option<string>,
    severity: Option<int>,
    sourceLang: Option<string>,
    apiKey: Option<string>,
    targetLang: Option<string>,
    outputFormat: Option<string>,
    addSectionTitle: Option<string>)

  function StrValue(o: Option<string>): Option<Node> {
    if o.Some? then Some(Str(o.value)) else None
  }

  /** The value `if x: override(key, x)` writes: nothing unless truthy. */
  function IfTruthy(o: Option<string>): Option<Node> {
    if Truthy(o) then Some(Str(o.value)) else None
  }

  function StrItems(xs: seq<string>): (r: seq<Node>)
    ensures |r| == |xs|
  {
    seq(|xs|, i requires 0 <= i < |xs| => Str(xs[i]))
  }

  /** The paths of the guarded overrides, in the order `main` applies
      them. */
  const GuardedPaths: seq<seq<string>> := [
    ["processing", "heading_styles"], ["openai", "prompt"], ["processing", "processor"],
    ["processing", "severity"], ["processing", "source_lang"], ["processing", "target_lang"],
    ["processing", "output_format"], ["processing", "additional_prompt"], ["processing", "add_section_title"]]

  /** The dotted key `main` passes to `override` for the `i`-th path. */
  function GuardedKey(i: nat): string
    requires i < |GuardedPaths|
  {
    Join(".", GuardedPaths[i])
  }

  /** The value each guarded override writes, or `None` when its guard
      fails: the severity is written whenever given, even 0; the heading
      styles when the list is non-empty; the others only when truthy. */
  function GuardedValues(args: Args): (r: seq<Option<Node>>)
    ensures |r| == |GuardedPaths|
  {
    [if args.headingStyles.Some? && |args.headingStyles.value| > 0 then Some(Items(StrItems(args.headingStyles.value))) else None,
     IfTruthy(args.prompt),
     IfTruthy(args.processor),
     if args.severity.Some? then Some(Number(args.severity.value)) else None,
     IfTruthy(args.sourceLang),
     IfTruthy(args.targetLang),
     IfTruthy(args.outputFormat),
     IfTruthy(args.additionalPrompt),
     IfTruthy(args.addSectionTitle)]
  }

  /** One override step: a key already split at its dots, and the value
      to write there, if any. */
  type Step = (seq<string>, Option<Node>)

  predicate Splittable(steps: seq<Step>) {
    forall i :: 0 <= i < |steps| ==> |steps[i].0| >= 1
  }

  /** The overrides applied after the key check, in order. */
  function GuardedSteps(args: Args): (r: seq<Step>)
    ensures |r| == |GuardedPaths| && Splittable(r)
  {
    seq(|GuardedPaths|, i requires 0 <= i < |GuardedPaths| => (GuardedPaths[i], GuardedValues(args)[i]))
  }

  /** Successive `override` calls, stopping at the first that raises. */
  function ApplyOverrides(cfg: Node, steps: seq<Step>): Result<Node>
    requires Splittable(steps)
    decreases |steps|
  {
    if |steps| == 0 then Ok(cfg)
    else
      match OverridePath(cfg, steps[0].0, steps[0].1)
      case Fail(e) => Fail(e)
      case Ok(c) => ApplyOverrides(c, steps[1..])
  }

  /** The paths of the keys `main` writes before the guarded overrides. */
  const InputDirPath: seq<string> := ["io", "input_directory"]
  const OutputDirPath: seq<string> := ["io", "output_directory"]
  const ApiKeyPath: seq<string> := ["openai", "api_key"]

  /** The two directory overrides, written whenever the option is given,
      even when it is empty: the guard is `is None`, inside `override`. */
  function WriteDirs(cfg: Node, args: Args): Result<Node> {
    var c1 :- OverridePath(cfg, InputDirPath, StrValue(args.inputDir));
    OverridePath(c1, OutputDirPath, StrValue(args.outputDir))
  }

  /** The configuration steps of `main` up to the processor parameters:
      the directories, the API key read with `get` and written back, then
      the guarded overrides. */
  function Configure(cfg: Node, args: Args): Result<Node> {
    var c2 :- WriteDirs(cfg, args);
    var key :- ChooseApiKey(args.apiKey, Walk(c2, ApiKeyPath));
    var c3 :- OverridePath(c2, ApiKeyPath, Some(key));
    ApplyOverrides(c3, GuardedSteps(args))
  }

  const ConfigurePaths: seq<seq<string>> := [InputDirPath, OutputDirPath, ApiKeyPath]

  /** The dotted keys of these paths are the source's literal keys. */
  lemma ConfigureKeyNames()
    ensures Join(".", InputDirPath) == "io.input_directory"
    ensures Join(".", OutputDirPath) == "io.output_directory"
    ensures Join(".", ApiKeyPath) == "openai.api_key"
  {
  }

  /** Each of these keys splits back into its path. */
  lemma ConfigureKeysSplit(i: nat)
    requires i < |ConfigurePaths|
    ensures Path(Join(".", ConfigurePaths[i])) == ConfigurePaths[i]
  {
    SplitOnJoin(ConfigurePaths[i], '.');
  }

  /** `override` with `None` changes nothing; with a value the path reads
      it back. */
  lemma OverridePathGet(cfg: Node, p: seq<string>, v: Option<Node>)
    requires |p| >= 1 && OverridePath(cfg, p, v).Ok?
    ensures Walk(OverridePath(cfg, p, v).value, p) == if v.Some? then v else Walk(cfg, p)
  {
    if v.Some? {
      SetPathGet(cfg, p, v.value);
    }
  }

  /** An override leaves a path that parts from its own unchanged. */
  lemma OverridePathFrame(cfg: Node, p: seq<string>, v: Option<Node>, q: seq<string>, j: nat)
    requires |p| >= 1 && PartsAt(p, q, j) && OverridePath(cfg, p, v).Ok?
    ensures Walk(OverridePath(cfg, p, v).value, q) == Walk(cfg, q)
  {
    if v.Some? {
      SetPathFrame(cfg, p, v.value, q, j);
    }
  }

  /** A failing override always raises `TypeError`. */
  lemma OverridePathError(cfg: Node, p: seq<string>, v: Option<Node>)
    requires |p| >= 1
    ensures OverridePath(cfg, p, v).Fail? ==> OverridePath(cfg, p, v).error.TypeError?
  {
    if v.Some? {
      SetPathSucceeds(cfg, p, v.value);
    }
  }

  /** A failing run of overrides raises `TypeError`. */
  lemma {:induction false} ApplyOverridesError(cfg: Node, steps: seq<Step>)
    requires Splittable(steps)
    ensures ApplyOverrides(cfg, steps).Fail? ==> ApplyOverrides(cfg, steps).error.TypeError?
    decreases |steps|
  {
    if |steps| > 0 {
      OverridePathError(cfg, steps[0].0, steps[0].1);
      match OverridePath(cfg, steps[0].0, steps[0].1)
      case Fail(e) =>
      case Ok(c) => ApplyOverridesError(c, steps[1..]);
    }
  }

  /** A two-segment path outside the guarded keys' sections (or under
      "openai" but not "prompt") parts from every guarded path. */
  lemma GuardedApart(args: Args, q: seq<string>)
    requires |q| == 2 && q[0] != "processing" && (q[0] == "openai" ==> q[1] != "prompt")
    ensures var steps := GuardedSteps(args);
      forall i :: 0 <= i < |steps| && steps[i].1.Some? ==> exists j :: PartsAt(steps[i].0, q, j)
  {
    var steps := GuardedSteps(args);
    forall i | 0 <= i < |steps| && steps[i].1.Some? ensures exists j :: PartsAt(steps[i].0, q, j) {
      var p := GuardedPaths[i];
      assert steps[i].0 == p;
      if p[0] == q[0] {
        assert q[..1] == p[..1];
        assert PartsAt(p, q, 1);
      } else {
        assert PartsAt(p, q, 0);
      }
    }
  }

  /** The key check decides the `ValueError`: once the directories are
      written, `main` raises "Valid API key not found" exactly when no
      usable key was found; any other failure is a `TypeError`. */
  lemma ConfigureNoKey(cfg: Node, args: Args)
    requires WriteDirs(cfg, args).Ok?
    ensures Configure(cfg, args) == Fail(ValueError(NoKeyMessage)) <==>
      ChooseApiKey(args.apiKey, Walk(WriteDirs(cfg, args).value, ApiKeyPath)).Fail?
    ensures Configure(cfg, args).Fail? && Configure(cfg, args).error != ValueError(NoKeyMessage) ==>
      Configure(cfg, args).error.TypeError?
  {
    var c2 := WriteDirs(cfg, args).value;
    ApiKeySpec(args.apiKey, Walk(c2, ApiKeyPath));
    var k := ChooseApiKey(args.apiKey, Walk(c2, ApiKeyPath));
    if k.Ok? {
      OverridePathError(c2, ApiKeyPath, Some(k.value));
      if OverridePath(c2, ApiKeyPath, Some(k.value)).Ok? {
        ApplyOverridesError(OverridePath(c2, ApiKeyPath, Some(k.value)).value, GuardedSteps(args));
      }
    }
  }

  /** Every failure other than the key check's `ValueError` is a
      `TypeError` from one of the writes. */
  lemma ConfigureError(cfg: Node, args: Args)
    ensures Configure(cfg, args).Fail? && Configure(cfg, args).error != ValueError(NoKeyMessage) ==>
      Configure(cfg, args).error.TypeError?
  {
    OverridePathError(cfg, InputDirPath, StrValue(args.inputDir));
    var w1 := OverridePath(cfg, InputDirPath, StrValue(args.inputDir));
    if w1.Ok? {
      OverridePathError(w1.value, OutputDirPath, StrValue(args.outputDir));
    }
    if WriteDirs(cfg, args).Ok? {
      ConfigureNoKey(cfg, args);
    }
  }

  /** After a successful run the API key reads back the chosen key: the
      guarded overrides never touch it. */
  lemma ConfigureApiKey(cfg: Node, args: Args)
    requires Configure(cfg, args).Ok?
    ensures WriteDirs(cfg, args).Ok?
    ensures var chosen := ChooseApiKey(args.apiKey, Walk(WriteDirs(cfg, args).value, ApiKeyPath));
      chosen.Ok? && Walk(Configure(cfg, args).value, ApiKeyPath) == Some(chosen.value)
  {
    var c2 := WriteDirs(cfg, args).value;
    var key := ChooseApiKey(args.apiKey, Walk(c2, ApiKeyPath)).value;
    var c3 := OverridePath(c2, ApiKeyPath, Some(key)).value;
    OverridePathGet(c2, ApiKeyPath, Some(key));
    GuardedApart(args, ApiKeyPath);
    ApplyOverridesFrame(c3, GuardedSteps(args), ApiKeyPath);
  }

  /** The directory overrides: each directory reads the given value, even
      an empty one, or its configured value when the option is absent. */
  lemma WriteDirsSpec(cfg: Node, args: Args)
    requires WriteDirs(cfg, args).Ok?
    ensures Walk(WriteDirs(cfg, args).value, InputDirPath) ==
      if args.inputDir.Some? then Some(Str(args.inputDir.value)) else Walk(cfg, InputDirPath)
    ensures Walk(WriteDirs(cfg, args).value, OutputDirPath) ==
      if args.outputDir.Some? then Some(Str(args.outputDir.value)) else Walk(cfg, OutputDirPath)
  {
    var c1 := OverridePath(cfg, InputDirPath, StrValue(args.inputDir)).value;
    OverridePathGet(cfg, InputDirPath, StrValue(args.inputDir));
    assert PartsAt(InputDirPath, OutputDirPath, 1) by {
      assert OutputDirPath[..1] == InputDirPath[..1];
    }
    assert PartsAt(OutputDirPath, InputDirPath, 1) by {
      assert OutputDirPath[..1] == InputDirPath[..1];
    }
    OverridePathFrame(c1, OutputDirPath, StrValue(args.outputDir), InputDirPath, 1);
    OverridePathFrame(cfg, InputDirPath, StrValue(args.inputDir), OutputDirPath, 1);
    OverridePathGet(c1, OutputDirPath, StrValue(args.outputDir));
  }

  /** The directories survive the key step and the guarded overrides. */
  lemma ConfigureDirs(cfg: Node, args: Args, q: seq<string>)
    requires Configure(cfg, args).Ok? && (q == InputDirPath || q == OutputDirPath)
    ensures WriteDirs(cfg, args).Ok?
    ensures Walk(Configure(cfg, args).value, q) == Walk(WriteDirs(cfg, args).value, q)
  {
    var c2 := WriteDirs(cfg, args).value;
    var key := ChooseApiKey(args.apiKey, Walk(c2, ApiKeyPath)).value;
    var c3 := OverridePath(c2, ApiKeyPath, Some(key)).value;
    assert PartsAt(ApiKeyPath, q, 0);
    OverridePathFrame(c2, ApiKeyPath, Some(key), q, 0);
    GuardedApart(args, q);
    ApplyOverridesFrame(c3, GuardedSteps(args), q);
  }

  /** The same through `get`, for any key that splits into the API key's
      path, as "openai.api_key" does. */
  lemma ConfigureGetApiKey(cfg: Node, args: Args, key: string)
    requires Path(key) == ApiKeyPath && Configure(cfg, args).Ok?
    ensures WriteDirs(cfg, args).Ok?
    ensures Get(Configure(cfg, args).value, key, None) ==
      Some(ChooseApiKey(args.apiKey, Walk(WriteDirs(cfg, args).value, ApiKeyPath)).value)
  {
    ConfigureApiKey(cfg, args);
  }

  /** `main`'s configuration steps: the key check raises the "Valid API
      key not found" `ValueError` exactly when no usable key is found, and
      any other failure is a `TypeError`; on success the API key and both
      directories read back what was written, the directories even when
      given empty. */
  lemma ConfigureSpec(cfg: Node, args: Args)
    ensures WriteDirs(cfg, args).Ok? ==>
      (Configure(cfg, args) == Fail(ValueError(NoKeyMessage)) <==>
       ChooseApiKey(args.apiKey, Walk(WriteDirs(cfg, args).value, ApiKeyPath)).Fail?)
    ensures Configure(cfg, args).Fail? && Configure(cfg, args).error != ValueError(NoKeyMessage) ==>
      Configure(cfg, args).error.TypeError?
    ensures Configure(cfg, args).Ok? ==>
      Walk(Configure(cfg, args).value, ApiKeyPath) ==
        Some(ChooseApiKey(args.apiKey, Walk(WriteDirs(cfg, args).value, ApiKeyPath)).value)
    ensures Configure(cfg, args).Ok? && args.inputDir.Some? ==>
      Walk(Configure(cfg, args).value, InputDirPath) == Some(Str(args.inputDir.value))
    ensures Configure(cfg, args).Ok? && args.outputDir.Some? ==>
      Walk(Configure(cfg, args).value, OutputDirPath) == Some(Str(args.outputDir.value))
  {
    ConfigureError(cfg, args);
    if WriteDirs(cfg, args).Ok? {
      ConfigureNoKey(cfg, args);
    }
    if Configure(cfg, args).Ok? {
      ConfigureApiKey(cfg, args);
      WriteDirsSpec(cfg, args);
      ConfigureDirs(cfg, args, InputDirPath);
      ConfigureDirs(cfg, args, OutputDirPath);
    }
  }

  /** Each guarded step is `override` with its dotted key. */
  lemma GuardedStepsAreOverrides(args: Args, cfg: Node, i: nat)
    requires i < |GuardedPaths|
    ensures OverridePath(cfg, GuardedSteps(args)[i].0, GuardedSteps(args)[i].1) == Override(cfg, GuardedKey(i), GuardedValues(args)[i])
  {
    GuardedKeysSplit(i);
  }

  lemma {:induction false} ApplyOverridesAppend(cfg: Node, a: seq<Step>, b: seq<Step>)
    requires Splittable(a) && Splittable(b)
    ensures Splittable(a + b)
    ensures ApplyOverrides(cfg, a + b) ==
      match ApplyOverrides(cfg, a)
      case Fail(e) => Fail(e)
      case Ok(c) => ApplyOverrides(c, b)
    decreases |a|
  {
    if |a| == 0 {
      assert a + b == b;
    } else {
      assert (a + b)[0] == a[0];
      assert (a + b)[1..] == a[1..] + b;
      match OverridePath(cfg, a[0].0, a[0].1)
      case Fail(e) =>
      case Ok(c) => ApplyOverridesAppend(c, a[1..], b);
    }
  }

  /** `q` leaves path `p` at segment `j`. */
  predicate PartsAt(p: seq<string>, q: seq<string>, j: nat) {
    j < |p| && j < |q| && q[..j] == p[..j] && q[j] != p[j]
  }

  /** Overrides whose paths all leave `q` somewhere do not change what `q`
      reads. */
  lemma {:induction false} ApplyOverridesFrame(cfg: Node, steps: seq<Step>, q: seq<string>)
    requires Splittable(steps)
    requires forall i :: 0 <= i < |steps| && steps[i].1.Some? ==> exists j :: PartsAt(steps[i].0, q, j)
    requires ApplyOverrides(cfg, steps).Ok?
    ensures Walk(ApplyOverrides(cfg, steps).value, q) == Walk(cfg, q)
    decreases |steps|
  {
    if |steps| > 0 {
      var c := OverridePath(cfg, steps[0].0, steps[0].1).value;
      if steps[0].1.Some? {
        var j :| PartsAt(steps[0].0, q, j);
        SetPathFrame(cfg, steps[0].0, steps[0].1.value, q, j);
      }
      forall i | 0 <= i < |steps[1..]| && steps[1..][i].1.Some?
        ensures exists j :: PartsAt(steps[1..][i].0, q, j)
      {
        assert steps[1..][i] == steps[i + 1];
      }
      ApplyOverridesFrame(c, steps[1..], q);
    }
  }

  /** Each guarded key splits into its path. */
  lemma GuardedKeysSplit(i: nat)
    requires i < |GuardedPaths|
    ensures Path(GuardedKey(i)) == GuardedPaths[i]
  {
    SplitOnJoin(GuardedPaths[i], '.');
  }

  /** The guarded overrides other than the `k`-th all leave its path. */
  lemma OthersApart(args: Args, k: nat, lo: nat, hi: nat)
    requires lo <= hi <= |GuardedPaths| && k < |GuardedPaths| && (k < lo || hi <= k)
    ensures var others := GuardedSteps(args)[lo..hi];
      forall i :: 0 <= i < |others| && others[i].1.Some? ==> exists j :: PartsAt(others[i].0, GuardedPaths[k], j)
  {
    var others := GuardedSteps(args)[lo..hi];
    forall i | 0 <= i < |others| && others[i].1.Some? ensures exists j :: PartsAt(others[i].0, GuardedPaths[k], j) {
      assert others[i].0 == GuardedPaths[lo + i];
      PathsApart(lo + i, k);
    }
  }

  /** Each guarded path reads the value written to it when there was one,
      and its earlier value when its guard failed. */
  lemma GuardedWalk(cfg: Node, args: Args, k: nat)
    requires k < |GuardedPaths|
    requires ApplyOverrides(cfg, GuardedSteps(args)).Ok?
    ensures Walk(ApplyOverrides(cfg, GuardedSteps(args)).value, GuardedPaths[k]) ==
      if GuardedValues(args)[k].Some? then GuardedValues(args)[k] else Walk(cfg, GuardedPaths[k])
  {
    var steps := GuardedSteps(args);
    var before := steps[..k];
    var rest := steps[k..];
    assert steps == before + rest;
    ApplyOverridesAppend(cfg, before, rest);
    assert before == steps[0..k];
    OthersApart(args, k, 0, k);
    ApplyOverridesFrame(cfg, before, GuardedPaths[k]);
    GuardedStep(ApplyOverrides(cfg, before).value, args, k);
  }

  lemma GuardedStep(c1: Node, args: Args, k: nat)
    requires k < |GuardedPaths|
    requires ApplyOverrides(c1, GuardedSteps(args)[k..]).Ok?
    ensures Walk(ApplyOverrides(c1, GuardedSteps(args)[k..]).value, GuardedPaths[k]) ==
      if GuardedValues(args)[k].Some? then GuardedValues(args)[k] else Walk(c1, GuardedPaths[k])
  {
    var steps := GuardedSteps(args);
    var p := GuardedPaths[k];
    var v := GuardedValues(args)[k];
    var rest := steps[k..];
    assert rest[0] == (p, v);
    assert rest[1..] == steps[k + 1..];
    var c2 := OverridePath(c1, p, v).value;
    if v.Some? {
      SetPathGet(c1, p, v.value);
    }
    assert steps[k + 1..] == steps[k + 1..|GuardedPaths|];
    OthersApart(args, k, k + 1, |GuardedPaths|);
    ApplyOverridesFrame(c2, steps[k + 1..], p);
  }

  /** Distinct guarded keys part at their first or second segment. */
  lemma PathsApart(i: nat, k: nat)
    requires i < |GuardedPaths| && k < |GuardedPaths| && i != k
    ensures PartsAt(GuardedPaths[i], GuardedPaths[k], 0) || PartsAt(GuardedPaths[i], GuardedPaths[k], 1)
  {
    var p := GuardedPaths[i];
    var q := GuardedPaths[k];
    if p[0] == q[0] {
      assert q[..1] == p[..1];
    }
  }

  /** The same through `get`, for any key that splits into the path. */
  lemma GuardedGet(cfg: Node, args: Args, k: nat, key: string)
    requires k < |GuardedPaths| && Path(key) == GuardedPaths[k]
    requires ApplyOverrides(cfg, GuardedSteps(args)).Ok?
    ensures Get(ApplyOverrides(cfg, GuardedSteps(args)).value, key, None) ==
      if GuardedValues(args)[k].Some? then GuardedValues(args)[k] else Get(cfg, key, None)
  {
    GuardedWalk(cfg, args, k);
  }

  /** The keys of the severity and source-language overrides. */
  lemma GuardedKeyNames()
    ensures GuardedKey(3) == "processing.severity"
    ensures GuardedKey(4) == "processing.source_lang"
  {
  }

  /** The severity given on the command line is in the configuration
      afterwards, under "processing.severity" (`GuardedKey(3)`, or any key
      that splits the same way), whenever it is given, 0 included. */
  lemma SeverityOverride(cfg: Node, args: Args, s: int, key: string)
    requires args.severity == Some(s) && Path(key) == GuardedPaths[3]
    requires ApplyOverrides(cfg, GuardedSteps(args)).Ok?
    ensures Get(ApplyOverrides(cfg, GuardedSteps(args)).value, key, None) == Some(Number(s))
  {
    GuardedGet(cfg, args, 3, key);
  }

  /** An empty or missing source language leaves "processing.source_lang"
      (`GuardedKey(4)`, or any key that splits the same way) as it was: the
      guard is truthiness, not presence. */
  lemma FalsySourceLangKept(cfg: Node, args: Args, key: string)
    requires !Truthy(args.sourceLang) && Path(key) == GuardedPaths[4]
    requires ApplyOverrides(cfg, GuardedSteps(args)).Ok?
    ensures Get(ApplyOverrides(cfg, GuardedSteps(args)).value, key, None) == Get(cfg, key, None)
  {
    GuardedGet(cfg, args, 4, key);
  }

  // -----------------------------------------------------------------------
  // Word output from Word input

  /** Some input's extension, lower-cased, is ".docx". */
  function HasDocxInput(documents: seq<string>): bool {
    if |documents| == 0 then false
    else Lower(Ext(documents[0])) == ".docx" || HasDocxInput(documents[1..])
  }

  /** `docx_in_docx_mode`. */
  function DocxInDocx(outputFormat: string, documents: seq<string>): bool {
    outputFormat == "docx" && HasDocxInput(documents)
  }

  /** The mode is on exactly when the output format is "docx" and some
      document has a ".docx" extension in any letter case. */
  lemma DocxInDocxSpec(outputFormat: string, documents: seq<string>)
    ensures DocxInDocx(outputFormat, documents) <==>
      outputFormat == "docx" && exists i :: 0 <= i < |documents| && Lower(Ext(documents[i])) == ".docx"
  {
    if HasDocxInput(documents) {
      HasDocxInputSound(documents);
    }
    if exists i :: 0 <= i < |documents| && Lower(Ext(documents[i])) == ".docx" {
      var i :| 0 <= i < |documents| && Lower(Ext(documents[i])) == ".docx";
      HasDocxInputComplete(documents, i);
    }
  }

  lemma {:induction false} HasDocxInputSound(documents: seq<string>)
    requires HasDocxInput(documents)
    ensures exists i :: 0 <= i < |documents| && Lower(Ext(documents[i])) == ".docx"
    decreases |documents|
  {
    if Lower(Ext(documents[0])) != ".docx" {
      HasDocxInputSound(documents[1..]);
      var i :| 0 <= i < |documents[1..]| && Lower(Ext(documents[1..][i])) == ".docx";
      assert documents[i + 1] == documents[1..][i];
    }
  }

  lemma {:induction false} HasDocxInputComplete(documents: seq<string>, i: nat)
    requires i < |documents| && Lower(Ext(documents[i])) == ".docx"
    ensures HasDocxInput(documents)
    decreases i
  {
    if i > 0 {
      assert documents[1..][i - 1] == documents[i];
      HasDocxInputComplete(documents[1..], i - 1);
    }
  }
}
