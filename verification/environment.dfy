/** env/Environment.go: the environment record, its ranked raw lookup and
    `Property`.

    A raw lookup asks, in this order, the application parameters, the
    environment variables by the exact key, the environment variables by
    the key's canonical form, and then the registered property sources from
    the last registered to the first. Property sources are the map-backed
    ones (map, YAML and `.properties` sources, all a `MapPropertySource`
    once parsed), the random-value source and the Base64 source; the last
    two are derived: their `Properties()` is nil. */
module Environments {
  import opened Wrappers
  import opened Strings
  import opened Values
  import opened Optionals
  import opened Regex
  import opened Bytes
  import MapSources
  import Base64
  import RandomValues
  import ExprProcessing
  import Profiles
  import Collection
  import Text
  import WordScan

  // ---------------------------------------------------------------------
  // Property sources
  // ---------------------------------------------------------------------

  /** A registered property source. The Base64 source reads the property
      sources of the environment it is asked through, so it needs no state
      of its own. */
  datatype Source =
    | Enumerable(source: MapSources.MapPropertySource)
    | RandomSource
    | Base64Source

  /** `Properties()`: the map of an enumerable source, nil (`None`) for a
      derived one. */
  function SourceProperties(s: Source): (r: Option<map<string, string>>)
    ensures r.Some? <==> s.Enumerable?
    ensures s.Enumerable? ==> r.value == MapSources.Properties(s.source)
  {
    match s
    case Enumerable(m) => Some(MapSources.Properties(m))
    case RandomSource => RandomValues.Properties()
    case Base64Source => Base64.Properties()
  }

  datatype Environment = Environment(
    activeProfiles: seq<string>,
    params: MapSources.MapPropertySource,
    environ: MapSources.MapPropertySource,
    sources: seq<Source>,
    processor: ExprProcessing.ExprProcessor)

  /** `PropertySources()`: the registered sources, first-wins order. */
  function PropertySources(env: Environment): (r: seq<Source>)
    ensures |r| == |env.sources|
    ensures forall i :: 0 <= i < |r| ==> r[i] == env.sources[|env.sources| - 1 - i]
  {
    Collection.ReverseSlice(env.sources)
  }

  /** What the Base64 source iterates over: each source's `Properties()`, in
      first-wins order. */
  function Enumerated(env: Environment): (r: seq<Option<map<string, string>>>)
    ensures |r| == |env.sources|
    ensures forall i :: 0 <= i < |r| ==> r[i] == SourceProperties(PropertySources(env)[i])
  {
    var ps := PropertySources(env);
    seq(|ps|, i requires 0 <= i < |ps| => SourceProperties(ps[i]))
  }

  /** `HasProperty(key)` of a registered source, asked through `env`. */
  predicate SourceHas(env: Environment, s: Source, key: string) {
    match s
    case Enumerable(m) => MapSources.HasProperty(m, key)
    case RandomSource => RandomValues.HasProperty(key)
    case Base64Source => Base64.HasProperty(Enumerated(env), key)
  }

  /** `Property(key)` of a registered source, asked through `env`; the
      random source draws on `supply`. */
  function SourceProperty(env: Environment, s: Source, key: string, supply: seq<byte>): Result<string> {
    match s
    case Enumerable(m) => MapSources.Property(m, key)
    case RandomSource => RandomValues.Property(key, supply)
    case Base64Source => Base64.Property(Enumerated(env), key)
  }

  // ---------------------------------------------------------------------
  // The canonical form of an environment variable name
  // ---------------------------------------------------------------------

  /** The translation rule: `.`, `[` and `]` become `_`, `-` is deleted. */
  function TranslateChar(c: char): (r: string)
    ensures |r| <= 1
  {
    if c == '.' || c == '[' || c == ']' then "_"
    else if c == '-' then ""
    else [c]
  }

  function ReplaceChars(key: string): (r: string)
    ensures |r| <= |key|
    ensures forall i :: 0 <= i < |r| ==> r[i] !in ".[]-"
  {
    if key == [] then [] else TranslateChar(key[0]) + ReplaceChars(key[1..])
  }

  /** A character a canonical name can hold: none the rule rewrites and no
      lower-case letter. */
  predicate CanonicalChar(c: char) {
    c !in ".[]-" && !('a' <= c <= 'z')
  }

  predicate IsCanonical(s: string) {
    forall i :: 0 <= i < |s| ==> CanonicalChar(s[i])
  }

  /** `envVarCanonicalForm(key)`: the translation rule applied, then upper
      case. */
  function CanonicalForm(key: string): (r: string)
    ensures |r| <= |key|
    ensures IsCanonical(r)
  {
    var t := ReplaceChars(key);
    var r := ToUpper(t);
    assert forall i :: 0 <= i < |r| ==> r[i] == ToUpperChar(t[i]) && t[i] !in ".[]-";
    r
  }

  lemma {:induction false} ReplaceCharsOfCanonical(s: string)
    requires IsCanonical(s)
    ensures ReplaceChars(s) == s
  {
    if s != [] {
      assert CanonicalChar(s[0]);
      ReplaceCharsOfCanonical(s[1..]);
    }
  }

  lemma ToUpperOfCanonical(s: string)
    requires IsCanonical(s)
    ensures ToUpper(s) == s
  {
    assert forall i :: 0 <= i < |s| ==> CanonicalChar(s[i]);
  }

  /** The canonical names are exactly the names the canonical form leaves
      unchanged. */
  lemma CanonicalFormFixedPoints(key: string)
    ensures CanonicalForm(key) == key <==> IsCanonical(key)
  {
    if IsCanonical(key) {
      ReplaceCharsOfCanonical(key);
      ToUpperOfCanonical(key);
    }
  }

  /** Taking the canonical form twice is taking it once. */
  lemma CanonicalFormIdempotent(key: string)
    ensures CanonicalForm(CanonicalForm(key)) == CanonicalForm(key)
  {
    CanonicalFormFixedPoints(CanonicalForm(key));
  }

  lemma {:induction false} ReplaceCharsAppend(a: string, b: string)
    ensures ReplaceChars(a + b) == ReplaceChars(a) + ReplaceChars(b)
    decreases |a|
  {
    if a != [] {
      assert (a + b)[1..] == a[1..] + b;
      ReplaceCharsAppend(a[1..], b);
    } else {
      assert a + b == b;
    }
  }

  /** The canonical form is taken character by character: the form of a
      concatenation is the concatenation of the forms. */
  lemma CanonicalFormAppend(a: string, b: string)
    ensures CanonicalForm(a + b) == CanonicalForm(a) + CanonicalForm(b)
  {
    ReplaceCharsAppend(a, b);
    ToUpperAppend(ReplaceChars(a), ReplaceChars(b));
  }

  lemma ToUpperAppend(x: string, y: string)
    ensures ToUpper(x + y) == ToUpper(x) + ToUpper(y)
  {
    var u, v := ToUpper(x + y), ToUpper(x) + ToUpper(y);
    forall i | 0 <= i < |u| ensures u[i] == v[i] {
      if i < |x| {
        assert (x + y)[i] == x[i];
      } else {
        assert (x + y)[i] == y[i - |x|];
      }
    }
  }

  /** What the rule makes of each character. */
  lemma CanonicalFormOfChar(c: char)
    ensures c == '.' || c == '[' || c == ']' ==> CanonicalForm([c]) == "_"
    ensures c == '-' ==> CanonicalForm([c]) == ""
    ensures c !in ".[]-" ==> CanonicalForm([c]) == [ToUpperChar(c)]
  {
    assert [c][1..] == [];
  }

  // ---------------------------------------------------------------------
  // Raw lookup
  // ---------------------------------------------------------------------

  /** The last of the first `n` registered sources that has `key`. */
  function LastHolder(env: Environment, key: string, n: nat): (r: Option<nat>)
    requires n <= |env.sources|
    ensures r.None? ==> forall i :: 0 <= i < n ==> !SourceHas(env, env.sources[i], key)
    ensures r.Some? ==> r.value < n && SourceHas(env, env.sources[r.value], key)
                        && forall j :: r.value < j < n ==> !SourceHas(env, env.sources[j], key)
  {
    if n == 0 then None
    else if SourceHas(env, env.sources[n - 1], key) then Some(n - 1)
    else LastHolder(env, key, n - 1)
  }

  /** The reference reading of "first wins": the first of `sources` that
      has `key`. */
  function FirstHolder(env: Environment, sources: seq<Source>, key: string): (r: Option<nat>)
    ensures r.None? ==> forall i :: 0 <= i < |sources| ==> !SourceHas(env, sources[i], key)
    ensures r.Some? ==> r.value < |sources| && SourceHas(env, sources[r.value], key)
                        && forall j :: 0 <= j < r.value ==> !SourceHas(env, sources[j], key)
  {
    if sources == [] then None
    else if SourceHas(env, sources[0], key) then Some(0)
    else
      var r := FirstHolder(env, sources[1..], key);
      if r.Some? then Some(r.value + 1) else None
  }

  /** Scanning the registered sources from the last is taking the first
      holder in `PropertySources()` order. */
  lemma LastHolderIsFirstWins(env: Environment, key: string)
    ensures LastHolder(env, key, |env.sources|).None? <==> FirstHolder(env, PropertySources(env), key).None?
    ensures LastHolder(env, key, |env.sources|).Some? ==>
              FirstHolder(env, PropertySources(env), key).value == |env.sources| - 1 - LastHolder(env, key, |env.sources|).value
  {
    var n := |env.sources|;
    var ps := PropertySources(env);
    var l := LastHolder(env, key, n);
    var f := FirstHolder(env, ps, key);
    if l.Some? {
      assert ps[n - 1 - l.value] == env.sources[l.value];
    }
    if f.Some? {
      assert ps[f.value] == env.sources[n - 1 - f.value];
    }
  }

  /** `lookupRawProperty(key)`: the first of parameters, environment
      variables by the key, environment variables by its canonical form and
      registered sources from the last, that has the key. A holder whose
      `Property` panics makes the lookup fail. */
  function LookupRaw(env: Environment, key: string, supply: seq<byte>): (r: Result<Optional<string>>)
    ensures MapSources.HasProperty(env.params, key) ==> r == Success(Of(env.params.properties[key]))
    ensures !MapSources.HasProperty(env.params, key) && MapSources.HasProperty(env.environ, key) ==>
              r == Success(Of(env.environ.properties[key]))
    ensures !MapSources.HasProperty(env.params, key) && !MapSources.HasProperty(env.environ, key)
            && MapSources.HasProperty(env.environ, CanonicalForm(key)) ==>
              r == Success(Of(env.environ.properties[CanonicalForm(key)]))
    ensures !MapSources.HasProperty(env.params, key) && !MapSources.HasProperty(env.environ, key)
            && !MapSources.HasProperty(env.environ, CanonicalForm(key)) ==>
              match LastHolder(env, key, |env.sources|)
              case None => r == Success(Empty)
              case Some(i) =>
                var v := SourceProperty(env, env.sources[i], key, supply);
                (v.Success? ==> r == Success(Of(v.value))) && (v.Failure? ==> r == Failure(v.error))
  {
    if MapSources.HasProperty(env.params, key) then
      Success(Of(env.params.properties[key]))
    else if MapSources.HasProperty(env.environ, key) then
      Success(Of(env.environ.properties[key]))
    else if MapSources.HasProperty(env.environ, CanonicalForm(key)) then
      Success(Of(env.environ.properties[CanonicalForm(key)]))
    else
      match LastHolder(env, key, |env.sources|)
      case None => Success(Empty)
      case Some(i) =>
        var v :- SourceProperty(env, env.sources[i], key, supply);
        Success(Of(v))
  }

  /** `AddPropertySource(source)`: the source is registered last, so it
      comes first in `PropertySources()`; nothing else changes. */
  function AddPropertySource(env: Environment, s: Source): (r: Environment)
    ensures PropertySources(r) == [s] + PropertySources(env)
    ensures r.sources == env.sources + [s]
    ensures r.activeProfiles == env.activeProfiles && r.params == env.params
            && r.environ == env.environ && r.processor == env.processor
  {
    var r := env.(sources := env.sources + [s]);
    assert PropertySources(r) == [s] + PropertySources(env);
    r
  }

  /** Neither the parameters nor the environment variables, by the key or by
      its canonical form, have `key`: the registered sources decide. */
  predicate FromSources(env: Environment, key: string) {
    && !MapSources.HasProperty(env.params, key)
    && !MapSources.HasProperty(env.environ, key)
    && !MapSources.HasProperty(env.environ, CanonicalForm(key))
  }

  /** A map source registered last answers for every key it has that the
      parameters and environment variables lack. */
  lemma LastAddedWins(env: Environment, m: MapSources.MapPropertySource, key: string, supply: seq<byte>)
    requires FromSources(env, key) && MapSources.HasProperty(m, key)
    ensures LookupRaw(AddPropertySource(env, Enumerable(m)), key, supply) == Success(Of(m.properties[key]))
  {
    var r := AddPropertySource(env, Enumerable(m));
    assert r.sources[|r.sources| - 1] == Enumerable(m);
    assert SourceHas(r, r.sources[|r.sources| - 1], key);
  }

  /** Sources registered after others win over them: when the sources are
      `a` followed by `b` and `b[j]` has `key`, the holder the lookup reads
      sits at `b[j]` or later, never in `a`. */
  lemma LaterSourcesWin(env: Environment, a: seq<Source>, b: seq<Source>, j: nat, key: string)
    requires env.sources == a + b && j < |b| && SourceHas(env, b[j], key)
    ensures LastHolder(env, key, |env.sources|).Some?
    ensures |a| + j <= LastHolder(env, key, |env.sources|).value
  {
    assert env.sources[|a| + j] == b[j];
  }

  /** The case of env/Env_test.go: three map sources registered in turn
      with `key` set to `value1`, `value2` and `value3`; the last wins. */
  lemma ThirdLoadedWins(env: Environment, supply: seq<byte>)
    requires FromSources(env, "key")
    ensures var first := AddPropertySource(env, Enumerable(MapSources.MapPropertySourceOfMap("first loaded", map["key" := "value1"])));
            var second := AddPropertySource(first, Enumerable(MapSources.MapPropertySourceOfMap("second loaded", map["key" := "value2"])));
            var third := AddPropertySource(second, Enumerable(MapSources.MapPropertySourceOfMap("third loaded", map["key" := "value3"])));
            LookupRaw(third, "key", supply) == Success(Of("value3"))
  {
    var first := AddPropertySource(env, Enumerable(MapSources.MapPropertySourceOfMap("first loaded", map["key" := "value1"])));
    var second := AddPropertySource(first, Enumerable(MapSources.MapPropertySourceOfMap("second loaded", map["key" := "value2"])));
    LastAddedWins(second, MapSources.MapPropertySourceOfMap("third loaded", map["key" := "value3"]), "key", supply);
  }

  // ---------------------------------------------------------------------
  // Resolution
  // ---------------------------------------------------------------------

  /** The raw lookup the placeholder resolver consults. The resolver of
      every environment reads the package's current instance, not the
      environment whose processor runs, so this is `instance`'s lookup. */
  function LookupOf(instance: Environment, supply: seq<byte>): (l: ExprProcessing.Lookup)
    ensures forall key :: l(key) == LookupRaw(instance, key, supply)
  {
    key => LookupRaw(instance, key, supply)
  }

  /** `ResolveRequiredPlaceholders(expression)` on `env`: the strict
      processor of `env` (its pattern, context and strictness) run to a
      fixed point, with property placeholders looked up in the current
      `instance`. */
  function ResolveRequiredPlaceholders(env: Environment, instance: Environment, eval: ExprProcessing.Eval,
                                       supply: seq<byte>, expression: string, fuel: nat): (r: Result<Value>)
    requires ValidRegexp(env.processor.re)
    ensures expression == "" ==> r == Success(Str(""))
    ensures expression != "" && r.Success? && r.value.Str? ==>
              var t := ExprProcessing.Processor(env.processor, LookupOf(instance, supply), eval);
              Text.Pass(t, r.value.s) == Success(Text.Spliced(r.value.s))
  {
    ExprProcessing.Process(env.processor, LookupOf(instance, supply), eval, expression, fuel)
  }

  /** `Property(key)` on `env`: the raw value of `env`, or the panic "No
      value present for <key>", resolved against the current `instance` and
      printed. */
  function Property(env: Environment, instance: Environment, key: string, eval: ExprProcessing.Eval,
                    supply: seq<byte>, fuel: nat): (r: Result<string>)
    requires ValidRegexp(env.processor.re)
    ensures LookupRaw(env, key, supply) == Success(Empty) ==> r == Failure(Panic("No value present for " + key))
    ensures LookupRaw(env, key, supply).Failure? ==> r == Failure(LookupRaw(env, key, supply).error)
    ensures r.Success? ==>
              && LookupRaw(env, key, supply).Success? && LookupRaw(env, key, supply).value.Of?
              && var v := ResolveRequiredPlaceholders(env, instance, eval, supply, LookupRaw(env, key, supply).value.value, fuel);
                 v.Success? && r.value == Sprint(v.value)
  {
    var raw :- LookupRaw(env, key, supply);
    var value :- OrElsePanic(raw, "No value present for " + key);
    var v :- ResolveRequiredPlaceholders(env, instance, eval, supply, value, fuel);
    Success(Sprint(v))
  }

  /** A raw value without placeholders is the property's value. */
  lemma PropertyOfPlainValue(env: Environment, instance: Environment, key: string, eval: ExprProcessing.Eval,
                             supply: seq<byte>, fuel: nat, raw: string)
    requires ValidRegexp(env.processor.re) && fuel >= 1
    requires LookupRaw(env, key, supply) == Success(Of(raw))
    requires env.processor.re.findAll(raw) == []
    ensures Property(env, instance, key, eval, supply, fuel) == Success(raw)
  {
    var t := ExprProcessing.Processor(env.processor, LookupOf(instance, supply), eval);
    Text.PassWithoutHits(t, raw);
  }

  /** The raw text of `key` comes from `env`, but a placeholder `${x}` in
      it is looked up in the current `instance`: whatever `env` holds for
      `x`, the property is `instance`'s plain value of `x`. */
  lemma NestedPlaceholderReadsInstance(env: Environment, instance: Environment, key: string, x: string,
                                       raw: string, eval: ExprProcessing.Eval, supply: seq<byte>, fuel: nat)
    requires ValidRegexp(env.processor.re) && fuel >= 2
    requires LookupRaw(env, key, supply) == Success(Of(ExprProcessing.Placeholder(x)))
    requires ExprProcessing.OnlyPropertyHit(env.processor.re, ExprProcessing.Placeholder(x), 0, x)
    requires LookupRaw(instance, x, supply) == Success(Of(raw))
    requires env.processor.re.findAll(raw) == []
    ensures Property(env, instance, key, eval, supply, fuel) == Success(raw)
  {
    var t := ExprProcessing.Processor(env.processor, LookupOf(instance, supply), eval);
    var s := ExprProcessing.Placeholder(x);
    ExprProcessing.PassOfPlaceholder(env.processor, LookupOf(instance, supply), eval, x, raw);
    Text.PassWithoutHits(t, raw);
    if raw != s {
      Text.LoopStep(t, s, raw, fuel);
    }
  }

  /** A placeholder whose raw value is an expression resolves to the
      expression's value, not to its text: in env/Env_test.go, `${int}`
      with `int` set to `#{123}` gives the integer 123. */
  lemma PlaceholderOfExpressionValue(env: Environment, instance: Environment, eval: ExprProcessing.Eval, supply: seq<byte>,
                                     key: string, e: string, v: Value, fuel: nat)
    requires ValidRegexp(env.processor.re) && env.processor.strict && fuel >= 2
    requires !v.Str? && !IsNil(v)
    requires ExprProcessing.OnlyPropertyHit(env.processor.re, ExprProcessing.Placeholder(key), 0, key)
    requires ExprProcessing.OnlyExpressionHit(env.processor.re, "#{" + e + "}", e)
    requires LookupRaw(instance, key, supply) == Success(Of("#{" + e + "}"))
    requires eval(e)(env.processor.context) == Success(v)
    ensures ResolveRequiredPlaceholders(env, instance, eval, supply, ExprProcessing.Placeholder(key), fuel) == Success(v)
  {
    ExprProcessing.PlaceholderOfExpression(env.processor, LookupOf(instance, supply), eval, key, e, v, fuel);
  }

  // ---------------------------------------------------------------------
  // Profiles
  // ---------------------------------------------------------------------

  /** `MatchesProfiles(profiles...)` against the active profile list. */
  function MatchesProfiles(env: Environment, compile: string -> Regexp, profiles: seq<string>): (r: Result<bool>)
    requires ValidRegexp(compile(Profiles.MatcherPattern))
    ensures profiles == [] ==> r == Success(true)
  {
    Profiles.MatchesProfiles(env.activeProfiles, compile, profiles)
  }

  /** A bare profile name matches exactly when it is active, and a negated
      one exactly when it is not. */
  lemma MatchesActiveProfile(env: Environment, compile: string -> Regexp, w: string)
    requires compile(Profiles.MatcherPattern) == WordScan.WordSignRegexp()
    requires Profiles.IsProfileName(w)
    ensures ValidRegexp(compile(Profiles.MatcherPattern))
    ensures MatchesProfiles(env, compile, [w]) == Success(w in env.activeProfiles)
    ensures MatchesProfiles(env, compile, ["!" + w]) == Success(w !in env.activeProfiles)
  {
    Profiles.NameMatches(env.activeProfiles, compile, w);
    Profiles.NegatedNameMatches(env.activeProfiles, compile, w);
  }
}
