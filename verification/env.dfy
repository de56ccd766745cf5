/** env/env.go: the package-level entry points over the one shared
    environment. The global is an explicit value here: `current` is the
    environment built so far, if any, and every entry point returns the one
    it leaves behind. What `newEnvironment` reads from outside (the file
    system, the parsers, `os.Environ()`, `os.Args[1:]`, the regexp compiler,
    the import fuel) travels in a `World`. */
module Env {
  import opened Wrappers
  import opened Strings
  import opened Values
  import opened Optionals
  import opened Regex
  import opened Bytes
  import ExprProcessing
  import Text
  import ConfigLocations
  import Arguments
  import Loading
  import opened Environments

  datatype World = World(fs: Loading.FileSystem, parsers: Loading.Parsers, environ: seq<string>, args: seq<string>,
                         compile: string -> Regexp, fuel: nat)

  /** An entry point's answer, with the environment it leaves in place. */
  datatype Answer<T> = Answer(instance: Environment, value: T)

  /** The placeholder pattern compiles to a well-behaved scanner, and so does
      the one of the environment already in place. */
  ghost predicate Compiles(w: World, current: Option<Environment>) {
    && ValidRegexp(w.compile(Text.CompiledSource(ExprProcessing.ExprPattern)))
    && (current.Some? ==> ValidRegexp(current.value.processor.re))
  }

  function NewEnv(w: World, profiles: string): Result<Environment> {
    Loading.NewEnvironment(w.fs, w.parsers, w.environ, w.args, profiles, w.compile, w.fuel)
  }

  // ---------------------------------------------------------------------
  // Rebuilding
  // ---------------------------------------------------------------------

  /** The sources a rebuild keeps: those that do not enumerate their
      properties, in their order. */
  function Derived(sources: seq<Source>): (r: seq<Source>)
    ensures |r| <= |sources|
    ensures forall i :: 0 <= i < |r| ==> SourceProperties(r[i]).None?
    ensures forall s :: s in r ==> s in sources
    ensures forall s :: s in sources && SourceProperties(s).None? ==> s in r
  {
    if sources == [] then []
    else
      var last := sources[|sources| - 1];
      var kept := Derived(sources[..|sources| - 1]);
      assert sources == sources[..|sources| - 1] + [last];
      if SourceProperties(last).None? then kept + [last] else kept
  }

  lemma {:induction false} DerivedAppend(a: seq<Source>, b: seq<Source>)
    ensures Derived(a + b) == Derived(a) + Derived(b)
    decreases |b|
  {
    if b == [] {
      assert a + b == a;
    } else {
      var init := b[..|b| - 1];
      DerivedAppend(a, init);
      assert (a + b)[..|a + b| - 1] == a + init;
      assert (a + b)[|a + b| - 1] == b[|b| - 1];
    }
  }

  lemma {:induction false} DerivedOfEnumerable(loaded: seq<Source>)
    requires forall i :: 0 <= i < |loaded| ==> loaded[i].Enumerable?
    ensures Derived(loaded) == []
  {
    if loaded != [] {
      DerivedOfEnumerable(loaded[..|loaded| - 1]);
    }
  }

  lemma {:induction false} DerivedOfDerived(kept: seq<Source>)
    requires forall i :: 0 <= i < |kept| ==> !kept[i].Enumerable?
    ensures Derived(kept) == kept
  {
    if kept != [] {
      DerivedOfDerived(kept[..|kept| - 1]);
      assert kept == kept[..|kept| - 1] + [kept[|kept| - 1]];
    }
  }

  /** Of sources read from files followed by derived ones, exactly the
      derived ones are kept. */
  lemma DerivedOfLoaded(loaded: seq<Source>, kept: seq<Source>)
    requires forall i :: 0 <= i < |loaded| ==> loaded[i].Enumerable?
    requires forall i :: 0 <= i < |kept| ==> !kept[i].Enumerable?
    ensures Derived(loaded + kept) == kept
  {
    DerivedAppend(loaded, kept);
    DerivedOfEnumerable(loaded);
    DerivedOfDerived(kept);
  }

  /** The previous environment's derived sources, registered one by one
      after the new environment's own. */
  function Carry(env: Environment, previous: seq<Source>): (r: Environment)
    ensures r.sources == env.sources + Derived(previous)
    ensures r.activeProfiles == env.activeProfiles && r.params == env.params
            && r.environ == env.environ && r.processor == env.processor
  {
    if previous == [] then
      assert env.sources + [] == env.sources;
      env
    else
      var last := previous[|previous| - 1];
      var e := Carry(env, previous[..|previous| - 1]);
      assert Derived(previous) == Derived(previous[..|previous| - 1]) + (if SourceProperties(last).None? then [last] else []);
      if SourceProperties(last).None? then AddPropertySource(e, last) else e
  }

  /** `SetActiveProfiles(profiles)`: nothing happens when the environment in
      place already has exactly `default` followed by these profiles;
      otherwise a new environment is built for them and the derived sources
      of the old one are carried over. */
  function SetActiveProfiles(w: World, current: Option<Environment>, profiles: string): (r: Result<Environment>)
    ensures current.Some? && "default," + profiles == Join(current.value.activeProfiles, ",") ==> r == Success(current.value)
    ensures !(current.Some? && "default," + profiles == Join(current.value.activeProfiles, ",")) ==>
              && (NewEnv(w, profiles).Failure? ==> r == Failure(NewEnv(w, profiles).error))
              && (NewEnv(w, profiles).Success? ==>
                    var built := NewEnv(w, profiles).value;
                    && r.Success?
                    && r.value.sources == built.sources + (if current.Some? then Derived(current.value.sources) else [])
                    && r.value.activeProfiles == built.activeProfiles && r.value.params == built.params
                    && r.value.environ == built.environ && r.value.processor == built.processor)
  {
    if current.Some? && "default," + profiles == Join(current.value.activeProfiles, ",") then Success(current.value)
    else
      var built :- NewEnv(w, profiles);
      Success(Carry(built, if current.Some? then current.value.sources else []))
  }

  /** Asking twice for the same non-empty profiles, when neither the
      command line nor the environment variables choose profiles, rebuilds
      once: the second call finds them in place. */
  lemma SetActiveProfilesTwice(w: World, current: Option<Environment>, profiles: string)
    requires profiles != ""
    requires ConfigLocations.RequestedProfiles(Arguments.LoadApplicationParameters(w.args).properties,
                                               Arguments.LoadEnvironmentVariables(w.environ).properties, profiles) == profiles
    requires SetActiveProfiles(w, current, profiles).Success?
    ensures var e := SetActiveProfiles(w, current, profiles).value;
            SetActiveProfiles(w, Some(e), profiles) == Success(e)
  {
    var e := SetActiveProfiles(w, current, profiles).value;
    if !(current.Some? && "default," + profiles == Join(current.value.activeProfiles, ",")) {
      var params := Arguments.LoadApplicationParameters(w.args);
      var environSource := Arguments.LoadEnvironmentVariables(w.environ);
      var start := ConfigLocations.ActiveProfilesOf(params.properties, environSource.properties, profiles);
      var l := Loading.LoadApplicationConfiguration(w.fs, w.parsers, params, environSource, profiles, w.fuel);
      assert l.Success?;
      assert start != ["default"];
      assert l.value.profiles == start;
      assert e.activeProfiles == start;
    }
  }

  /** An empty request always rebuilds an environment that holds only the
      `default` profile: `default,` never equals `default`. */
  lemma SetActiveProfilesEmptyRebuilds(w: World, current: Environment)
    requires current.activeProfiles == ["default"]
    ensures SetActiveProfiles(w, Some(current), "") == (
              if NewEnv(w, "").Failure? then Failure(NewEnv(w, "").error)
              else Success(Carry(NewEnv(w, "").value, current.sources)))
  {
    assert Join(current.activeProfiles, ",") == "default";
    assert ("default," + "")[7] == ',';
  }

  /** The sources `NewEnv` leaves: what files gave, then the random-value
      and Base64 sources. Only the last two are derived. */
  lemma DerivedOfBuilt(sources: seq<Source>)
    requires |sources| >= 2 && sources[|sources| - 2..] == [RandomSource, Base64Source]
    requires forall i :: 0 <= i < |sources| - 2 ==> sources[i].Enumerable?
    ensures Derived(sources) == [RandomSource, Base64Source]
  {
    var loaded := sources[..|sources| - 2];
    var kept := [RandomSource, Base64Source];
    assert sources == loaded + kept;
    assert forall i :: 0 <= i < |loaded| ==> loaded[i].Enumerable? by {
      forall i | 0 <= i < |loaded| ensures loaded[i].Enumerable? {
        assert loaded[i] == sources[i];
      }
    }
    assert forall i :: 0 <= i < |kept| ==> !kept[i].Enumerable?;
    DerivedOfLoaded(loaded, kept);
  }

  /** Rebuilding an environment that `NewEnv` made keeps exactly its
      random-value and Base64 sources. */
  lemma RebuildKeepsDefaults(w: World, previous: Environment, profiles: string)
    requires Join(previous.activeProfiles, ",") != "default," + profiles
    requires forall i :: 0 <= i < |previous.sources| - 2 ==> previous.sources[i].Enumerable?
    requires |previous.sources| >= 2 && previous.sources[|previous.sources| - 2..] == [RandomSource, Base64Source]
    requires NewEnv(w, profiles).Success?
    ensures SetActiveProfiles(w, Some(previous), profiles).value.sources
            == NewEnv(w, profiles).value.sources + [RandomSource, Base64Source]
  {
    DerivedOfBuilt(previous.sources);
  }

  // ---------------------------------------------------------------------
  // The instance and values
  // ---------------------------------------------------------------------

  /** `Instance()`: the environment in place, built on first use with no
      bootstrap profiles. */
  function Instance(w: World, current: Option<Environment>): (r: Result<Environment>)
    ensures current.Some? ==> r == Success(current.value)
    ensures current.None? ==> r == NewEnv(w, "")
  {
    if current.Some? then Success(current.value) else NewEnv(w, "")
  }

  /** Once built, the instance is the one every later call returns. */
  lemma InstanceIsStable(w: World, current: Option<Environment>, later: World)
    requires Instance(w, current).Success?
    ensures Instance(later, Some(Instance(w, current).value)) == Instance(w, current)
  {
  }

  /** The instance `Instance` builds holds only the random-value and Base64
      sources when there are no configuration files. */
  lemma FirstInstanceOfNothing(w: World)
    requires w.fs == map[]
    ensures Instance(w, None).Success? && Instance(w, None).value.sources == [RandomSource, Base64Source]
  {
    Loading.NewEnvironmentOfNothing(w.parsers, w.environ, w.args, "", w.compile, w.fuel);
    assert Instance(w, None) == Loading.NewEnvironment(map[], w.parsers, w.environ, w.args, "", w.compile, w.fuel);
  }

  /** The string branch of `convertAsType`: a string is returned as it is,
      anything else is printed. */
  function ConvertToString(value: Value): (r: string)
    ensures value.Str? ==> r == value.s
    ensures !value.Str? ==> r == Sprint(value)
  {
    match value
    case Str(s) => s
    case _ => Sprint(value)
  }

  /** Both branches agree with printing: a string prints as itself. */
  lemma ConvertToStringIsSprint(value: Value)
    ensures ConvertToString(value) == Sprint(value)
  {
  }

  /** `Value[string](expression)`: the expression resolved against the
      instance and converted to a string. */
  function Value(w: World, current: Option<Environment>, eval: ExprProcessing.Eval, supply: seq<byte>,
                 expression: string, fuel: nat): (r: Result<Answer<string>>)
    requires Compiles(w, current)
    ensures Instance(w, current).Failure? ==> r == Failure(Instance(w, current).error)
    ensures r.Success? ==> Instance(w, current) == Success(r.value.instance)
    ensures Instance(w, current).Success? && expression == "" ==> r == Success(Answer(Instance(w, current).value, ""))
    ensures r.Success? ==>
              var v := ResolveRequiredPlaceholders(r.value.instance, r.value.instance, eval, supply, expression, fuel);
              v.Success? && r.value.value == Sprint(v.value)
  {
    var env :- Instance(w, current);
    assert ValidRegexp(env.processor.re);
    var v :- ResolveRequiredPlaceholders(env, env, eval, supply, expression, fuel);
    ConvertToStringIsSprint(v);
    Success(Answer(env, ConvertToString(v)))
  }

  // ---------------------------------------------------------------------
  // Configuration properties
  // ---------------------------------------------------------------------

  /** A field name with its first letter lower-cased. */
  function Decapitalized(name: string): (r: string)
    requires name != ""
    ensures |r| == |name| && r[1..] == name[1..]
    ensures 'A' <= name[0] <= 'Z' ==> r[0] as int == name[0] as int + 32
    ensures !('A' <= name[0] <= 'Z') ==> r == name
  {
    [ToLowerChar(name[0])] + name[1..]
  }

  /** The raw value for field `field` under `prefix`: `prefix.Field`, and
      when that is absent and the name starts upper-case, `prefix.field`. */
  function FieldRaw(env: Environment, supply: seq<byte>, prefix: string, field: string): (r: Result<Optional<string>>)
    requires field != ""
    ensures var exact := LookupRaw(env, prefix + "." + field, supply);
            exact.Failure? || exact.value.Of? || !('A' <= field[0] <= 'Z') ==> r == exact
    ensures var exact := LookupRaw(env, prefix + "." + field, supply);
            exact.Success? && !exact.value.Of? && 'A' <= field[0] <= 'Z' ==>
              r == LookupRaw(env, prefix + "." + Decapitalized(field), supply)
  {
    var exact :- LookupRaw(env, prefix + "." + field, supply);
    if !Present(exact) && 'A' <= field[0] <= 'Z' then
      LookupRaw(env, prefix + "." + Decapitalized(field), supply)
    else Success(exact)
  }

  /** A field's resolved value, or `None` when neither key exists and the
      field is skipped. */
  function FieldValue(env: Environment, eval: ExprProcessing.Eval, supply: seq<byte>, prefix: string, field: string,
                      fuel: nat): (r: Result<Option<Value>>)
    requires field != "" && ValidRegexp(env.processor.re)
    ensures FieldRaw(env, supply, prefix, field).Failure? ==> r.Failure?
    ensures FieldRaw(env, supply, prefix, field).Success? && !FieldRaw(env, supply, prefix, field).value.Of? ==> r == Success(None)
    ensures r.Success? && r.value.Some? ==>
              && FieldRaw(env, supply, prefix, field).Success? && FieldRaw(env, supply, prefix, field).value.Of?
              && ResolveRequiredPlaceholders(env, env, eval, supply, FieldRaw(env, supply, prefix, field).value.value, fuel)
                 == Success(r.value.value)
  {
    var raw :- FieldRaw(env, supply, prefix, field);
    if !Present(raw) then Success(None)
    else
      var v :- ResolveRequiredPlaceholders(env, env, eval, supply, raw.value, fuel);
      Success(Some(v))
  }

  /** A command-line `prefix.field` serves the field `Field` when no
      `prefix.Field` is set anywhere. */
  lemma FieldFromDecapitalizedParam(env: Environment, supply: seq<byte>, prefix: string, field: string)
    requires field != "" && 'A' <= field[0] <= 'Z'
    requires LookupRaw(env, prefix + "." + field, supply) == Success(Empty)
    requires MapSources.HasProperty(env.params, prefix + "." + Decapitalized(field))
    ensures FieldRaw(env, supply, prefix, field) == Success(Of(env.params.properties[prefix + "." + Decapitalized(field)]))
  {
  }
}
