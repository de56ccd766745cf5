/** env/Environment.go, `loadApplicationConfiguration`, `loadFile` and
    `loadImport`, and `newEnvironment`: which configuration files are read,
    in which order, how each becomes a property source, how a file's
    `profiles.active` and `config.import` act, and how a new environment is
    put together.

    The file system is a map from path to entry; `files.Exists` is
    membership, and reading a directory fails. The `.properties` and YAML
    parsers are parameters. The import chain carries fuel: the source
    recurses without a bound, and an import cycle never ends there. */
module Loading {
  import opened Wrappers
  import opened Strings
  import MapSources
  import Yaml
  import Lang
  import Files
  import ConfigLocations
  import Arguments
  import ExprProcessing
  import Regex
  import Collection
  import opened Environments

  datatype Entry = File(content: string) | Directory

  type FileSystem = map<string, Entry>

  /** The parsers of the two file formats: `.properties` text to a map (or
      the parser's error), YAML text to a tree (or its error). */
  datatype Parsers = Parsers(properties: string -> Result<map<string, string>>, yaml: string -> Yaml.Parsed)

  /** What loading changes in the environment: the active profiles and the
      registered property sources. */
  datatype Loaded = Loaded(profiles: seq<string>, sources: seq<Source>)

  /** Loading only ever appends: sources are added at the end, and profiles
      are appended to, and only while the list is exactly `["default"]`. */
  predicate Grows(before: Loaded, after: Loaded) {
    && |before.sources| <= |after.sources| && after.sources[..|before.sources|] == before.sources
    && |before.profiles| <= |after.profiles| && after.profiles[..|before.profiles|] == before.profiles
    && (before.profiles != ["default"] ==> after.profiles == before.profiles)
  }

  lemma GrowsTransitive(a: Loaded, b: Loaded, c: Loaded)
    requires Grows(a, b) && Grows(b, c)
    ensures Grows(a, c)
  {
    assert c.sources[..|a.sources|] == c.sources[..|b.sources|][..|a.sources|];
    assert c.profiles[..|a.profiles|] == c.profiles[..|b.profiles|][..|a.profiles|];
  }

  lemma GrowsReflexive(a: Loaded)
    ensures Grows(a, a)
  {
    assert a.sources[..|a.sources|] == a.sources;
    assert a.profiles[..|a.profiles|] == a.profiles;
  }

  // ---------------------------------------------------------------------
  // One file
  // ---------------------------------------------------------------------

  const PropertiesExt: string := ".properties"

  function MissingExtensionMessage(path: string): string {
    "Cannot load from location " + path + ". If location supposed to be a directory use '/' at the end."
    + " Otherwise provide extension hint in square brackets like [.properties] to derive property source type"
  }

  function UnsupportedMessage(path: string, ext: string): string {
    "Cannot load from " + path + " as " + ext + " file type is not supported."
    + " Use extension hint in square brackets like .env[.properties] to derive property source type"
  }

  function DirectoryImportMessage(location: string, path: string): string {
    "Cannot load from location " + location + " defined in " + path + ". Directory import is not supported"
  }

  /** The extension that picks the parser: the hint if there is one, else
      the path's own extension. */
  function SourceExt(path: string, fantomExt: string): (r: string)
    ensures fantomExt != "" ==> r == fantomExt
    ensures fantomExt == "" ==> r == ConfigLocations.Ext(path)
  {
    ConfigLocations.FirstOfTwo(fantomExt, ConfigLocations.Ext(path));
    Lang.FirstNonEmpty("", [fantomExt, ConfigLocations.Ext(path)])
  }

  /** The property source a file's text becomes, by extension: the
      `.properties` parser, the YAML parser for `.yaml` and `.yml`, and a
      panic for anything else. */
  function ParseSource(parsers: Parsers, path: string, ext: string, content: string): (r: Result<MapSources.MapPropertySource>)
    ensures r.Success? ==> MapSources.Name(r.value) == path
    ensures ext == PropertiesExt ==>
              (parsers.properties(content).Failure? ==> r == Failure(parsers.properties(content).error))
              && (parsers.properties(content).Success? ==> r.Success? && MapSources.Properties(r.value) == parsers.properties(content).value)
    ensures ext == ".yaml" || ext == ".yml" ==> r == Yaml.NewYamlPropertySource(path, parsers.yaml(content))
    ensures ext != PropertiesExt && ext != ".yaml" && ext != ".yml" ==> r == Failure(Panic(UnsupportedMessage(path, ext)))
  {
    if ext == PropertiesExt then
      var m :- parsers.properties(content);
      Success(MapSources.SetProperties(MapSources.MapPropertySourceOf(path), m))
    else if ext == ".yaml" || ext == ".yml" then
      Yaml.NewYamlPropertySource(path, parsers.yaml(content))
    else
      Failure(Panic(UnsupportedMessage(path, ext)))
  }

  /** A loaded file's `profiles.active` is appended, split at commas, when
      the active list is exactly `["default"]`, and ignored otherwise. */
  function MergeProfiles(profiles: seq<string>, source: MapSources.MapPropertySource): (r: seq<string>)
    ensures profiles == ["default"] && MapSources.HasProperty(source, "profiles.active") ==>
              r == ["default"] + Split(source.properties["profiles.active"], ',')
    ensures !(profiles == ["default"] && MapSources.HasProperty(source, "profiles.active")) ==> r == profiles
  {
    if MapSources.HasProperty(source, "profiles.active") && |profiles| == 1 && profiles[0] == "default" then
      profiles + Split(source.properties["profiles.active"], ',')
    else profiles
  }

  /** A parsed file is registered after every earlier source, and may set
      the profiles. */
  function Register(st: Loaded, source: MapSources.MapPropertySource): (r: Loaded)
    ensures Grows(st, r)
    ensures r.sources == st.sources + [Enumerable(source)]
    ensures r.profiles == MergeProfiles(st.profiles, source)
  {
    var r := Loaded(MergeProfiles(st.profiles, source), st.sources + [Enumerable(source)]);
    assert r.sources[..|st.sources|] == st.sources;
    assert r.profiles[..|st.profiles|] == st.profiles;
    r
  }

  /** `loadFile(path, fantomExt)`: a missing path is skipped; an existing
      one is read, parsed by its extension, registered last, may set the
      profiles, and has its imports loaded in order. */
  function LoadFile(fs: FileSystem, parsers: Parsers, st: Loaded, path: string, fantomExt: string, fuel: nat): (r: Result<Loaded>)
    ensures r.Success? ==> Grows(st, r.value)
    ensures path !in fs ==> r == Success(st)
    ensures path in fs && SourceExt(path, fantomExt) == "" ==> r == Failure(Panic(MissingExtensionMessage(path)))
    decreases fuel, 3, 0
  {
    if path !in fs then Success(st)
    else
      var ext := SourceExt(path, fantomExt);
      if ext == "" then Failure(Panic(MissingExtensionMessage(path)))
      else
        match fs[path]
        case Directory => Failure(Panic("Cannot read from " + path + "\nCaused by: read " + path + ": is a directory"))
        case File(content) => LoadContent(fs, parsers, st, path, ext, content, fuel)
  }

  /** The text of the file at `path`, parsed by `ext`, registered, and its
      imports loaded in order. */
  function LoadContent(fs: FileSystem, parsers: Parsers, st: Loaded, path: string, ext: string, content: string, fuel: nat): (r: Result<Loaded>)
    ensures r.Success? ==> Grows(st, r.value)
    ensures ParseSource(parsers, path, ext, content).Failure? ==> r == Failure(ParseSource(parsers, path, ext, content).error)
    decreases fuel, 2, 0
  {
    var source :- ParseSource(parsers, path, ext, content);
    var next := Register(st, source);
    if MapSources.HasProperty(source, "config.import") then
      var imports := Split(source.properties["config.import"], ',');
      var r := LoadImports(fs, parsers, next, path, imports, 0, fuel);
      if r.Success? then GrowsTransitive(st, next, r.value); r else r
    else Success(next)
  }

  /** The imports of the file at `path`, from the `i`-th on. */
  function LoadImports(fs: FileSystem, parsers: Parsers, st: Loaded, path: string, imports: seq<string>, i: nat, fuel: nat): (r: Result<Loaded>)
    requires i <= |imports|
    ensures r.Success? ==> Grows(st, r.value)
    decreases fuel, 1, |imports| - i
  {
    if i == |imports| then GrowsReflexive(st); Success(st)
    else
      var next :- LoadImport(fs, parsers, st, path, imports[i], fuel);
      var r := LoadImports(fs, parsers, next, path, imports, i + 1, fuel);
      if r.Success? then GrowsTransitive(st, next, r.value); r else r
  }

  /** `loadImport(path, location)`: the hint is split off, a directory is
      refused, and the location is read relative to the importing file.
      Each import level spends one unit of fuel. */
  function LoadImport(fs: FileSystem, parsers: Parsers, st: Loaded, path: string, location: string, fuel: nat): (r: Result<Loaded>)
    ensures r.Success? ==> Grows(st, r.value)
    ensures fuel == 0 ==> r.Failure?
    ensures HasSuffix(ConfigLocations.SplitHint(location).location, "/") ==>
              r == Failure(Panic(DirectoryImportMessage(ConfigLocations.SplitHint(location).location, path)))
    decreases fuel, 0, 0
  {
    var h := ConfigLocations.SplitHint(location);
    if HasSuffix(h.location, "/") then Failure(Panic(DirectoryImportMessage(h.location, path)))
    else if fuel == 0 then Failure(DidNotConverge)
    else LoadFile(fs, parsers, st, Files.RelativePath(path, h.location), h.fantomExt, fuel - 1)
  }

  // ---------------------------------------------------------------------
  // The search
  // ---------------------------------------------------------------------

  /** The candidate files of one location group, in order. */
  function LoadCandidates(fs: FileSystem, parsers: Parsers, st: Loaded, cs: seq<ConfigLocations.Candidate>, i: nat, fuel: nat): (r: Result<Loaded>)
    requires i <= |cs|
    ensures r.Success? ==> Grows(st, r.value)
    decreases |cs| - i
  {
    if i == |cs| then GrowsReflexive(st); Success(st)
    else
      var next :- LoadFile(fs, parsers, st, cs[i].path, cs[i].fantomExt, fuel);
      var r := LoadCandidates(fs, parsers, next, cs, i + 1, fuel);
      if r.Success? then GrowsTransitive(st, next, r.value); r else r
  }

  /** `loadConfiguration` for each `;`-separated group of a location, under
      one profile. */
  function LoadGroups(fs: FileSystem, parsers: Parsers, st: Loaded, groups: seq<string>, i: nat,
                      name: string, profile: string, fuel: nat): (r: Result<Loaded>)
    requires i <= |groups|
    ensures r.Success? ==> Grows(st, r.value)
    decreases |groups| - i
  {
    if i == |groups| then GrowsReflexive(st); Success(st)
    else
      var cs := ConfigLocations.Candidates(groups[i], name, profile);
      var next :- LoadCandidates(fs, parsers, st, cs, 0, fuel);
      var r := LoadGroups(fs, parsers, next, groups, i + 1, name, profile, fuel);
      if r.Success? then GrowsTransitive(st, next, r.value); r else r
  }

  /** The profile loop of one location, from the `i`-th active profile on.
      The list is read afresh at every step, so profiles a file adds are
      searched too; it grows at most once, which bounds the loop. */
  function LoadProfilesFrom(fs: FileSystem, parsers: Parsers, st: Loaded, location: string, i: nat,
                            name: string, fuel: nat): (r: Result<Loaded>)
    ensures r.Success? ==> Grows(st, r.value)
    decreases if st.profiles == ["default"] then 1 else 0, |st.profiles| - i
  {
    if i >= |st.profiles| then GrowsReflexive(st); Success(st)
    else
      var next :- LoadGroups(fs, parsers, st, Split(location, ';'), 0, name, st.profiles[i], fuel);
      var r := LoadProfilesFrom(fs, parsers, next, location, i + 1, name, fuel);
      if r.Success? then GrowsTransitive(st, next, r.value); r else r
  }

  /** Every location, in order, under every active profile. */
  function LoadLocations(fs: FileSystem, parsers: Parsers, st: Loaded, locations: seq<string>, j: nat,
                         name: string, fuel: nat): (r: Result<Loaded>)
    requires j <= |locations|
    ensures r.Success? ==> Grows(st, r.value)
    decreases |locations| - j
  {
    if j == |locations| then GrowsReflexive(st); Success(st)
    else
      var next :- LoadProfilesFrom(fs, parsers, st, locations[j], 0, name, fuel);
      var r := LoadLocations(fs, parsers, next, locations, j + 1, name, fuel);
      if r.Success? then GrowsTransitive(st, next, r.value); r else r
  }

  /** `loadApplicationConfiguration(bootstrapProfiles)`. */
  function LoadApplicationConfiguration(fs: FileSystem, parsers: Parsers, params: MapSources.MapPropertySource,
                                        environ: MapSources.MapPropertySource, bootstrap: string, fuel: nat): (r: Result<Loaded>)
    ensures r.Success? ==> Grows(Loaded(ConfigLocations.ActiveProfilesOf(params.properties, environ.properties, bootstrap), []), r.value)
  {
    var profiles := ConfigLocations.ActiveProfilesOf(params.properties, environ.properties, bootstrap);
    var name := ConfigLocations.ConfigName(params.properties, environ.properties);
    var locations := Split(ConfigLocations.ResolvedConfigLocation(params.properties, environ.properties), ',');
    LoadLocations(fs, parsers, Loaded(profiles, []), locations, 0, name, fuel)
  }

  /** The environment over what loading produced, with the random-value and
      Base64 sources registered last, so that they are searched first. */
  function Assemble(st: Loaded, params: MapSources.MapPropertySource, environ: MapSources.MapPropertySource,
                    processor: ExprProcessing.ExprProcessor): (r: Environment)
    ensures PropertySources(r) == [Base64Source, RandomSource] + Collection.ReverseSlice(st.sources)
    ensures r.sources == st.sources + [RandomSource, Base64Source]
    ensures r.activeProfiles == st.profiles && r.params == params && r.environ == environ && r.processor == processor
  {
    var env := Environment(st.profiles, params, environ, st.sources, processor);
    var withRandom := AddPropertySource(env, RandomSource);
    var withBase64 := AddPropertySource(withRandom, Base64Source);
    assert withBase64.sources == st.sources + [RandomSource, Base64Source];
    withBase64
  }

  /** `newEnvironment(activeProfiles)`: environment variables, then the
      command-line arguments (`os.Args[1:]`), then the configuration files,
      and finally the random-value and Base64 sources; the processor is
      strict. */
  function NewEnvironment(fs: FileSystem, parsers: Parsers, environ: seq<string>, args: seq<string>,
                          bootstrap: string, compile: string -> Regex.Regexp, fuel: nat): (r: Result<Environment>)
    ensures var l := LoadApplicationConfiguration(fs, parsers, Arguments.LoadApplicationParameters(args),
                                                  Arguments.LoadEnvironmentVariables(environ), bootstrap, fuel);
            && (l.Failure? ==> r == Failure(l.error))
            && (l.Success? ==> r == Success(Assemble(l.value, Arguments.LoadApplicationParameters(args),
                                                     Arguments.LoadEnvironmentVariables(environ),
                                                     ExprProcessing.ExprProcessorOf(true, compile))))
  {
    var environSource := Arguments.LoadEnvironmentVariables(environ);
    var params := Arguments.LoadApplicationParameters(args);
    var st :- LoadApplicationConfiguration(fs, parsers, params, environSource, bootstrap, fuel);
    Success(Assemble(st, params, environSource, ExprProcessing.ExprProcessorOf(true, compile)))
  }

  // ---------------------------------------------------------------------
  // Properties of loading
  // ---------------------------------------------------------------------

  /** A `.properties` file that neither imports nor sets profiles becomes
      exactly one more source, searched before every earlier one. */
  lemma LoadPlainFile(fs: FileSystem, parsers: Parsers, st: Loaded, path: string, m: map<string, string>, fuel: nat)
    requires path in fs && fs[path].File? && ConfigLocations.Ext(path) == PropertiesExt
    requires parsers.properties(fs[path].content) == Success(m)
    requires "config.import" !in m && "profiles.active" !in m
    ensures LoadFile(fs, parsers, st, path, "", fuel)
            == Success(Loaded(st.profiles, st.sources + [Enumerable(MapSources.SetProperties(MapSources.MapPropertySourceOf(path), m))]))
  {
    var source := MapSources.SetProperties(MapSources.MapPropertySourceOf(path), m);
    assert ParseSource(parsers, path, PropertiesExt, fs[path].content) == Success(source);
    assert !MapSources.HasProperty(source, "config.import") && !MapSources.HasProperty(source, "profiles.active");
    assert LoadContent(fs, parsers, st, path, PropertiesExt, fs[path].content, fuel) == Success(Register(st, source));
  }

  // ---------------------------------------------------------------------
  // The search order over plain files
  // ---------------------------------------------------------------------

  /** A candidate that is absent, or a `.properties` file that parses and
      neither imports nor sets profiles: loading it can only append its own
      source. */
  predicate PlainCandidate(fs: FileSystem, parsers: Parsers, c: ConfigLocations.Candidate) {
    c.path in fs ==>
      && fs[c.path].File? && SourceExt(c.path, c.fantomExt) == PropertiesExt
      && parsers.properties(fs[c.path].content).Success?
      && "config.import" !in parsers.properties(fs[c.path].content).value
      && "profiles.active" !in parsers.properties(fs[c.path].content).value
  }

  predicate PlainCandidates(fs: FileSystem, parsers: Parsers, cs: seq<ConfigLocations.Candidate>) {
    forall k :: 0 <= k < |cs| ==> PlainCandidate(fs, parsers, cs[k])
  }

  predicate PlainGroups(fs: FileSystem, parsers: Parsers, groups: seq<string>, name: string, profile: string) {
    forall g :: 0 <= g < |groups| ==> PlainCandidates(fs, parsers, ConfigLocations.Candidates(groups[g], name, profile))
  }

  /** Every candidate of `location` under every profile is plain. */
  predicate PlainLocation(fs: FileSystem, parsers: Parsers, location: string, name: string, profiles: seq<string>) {
    forall k :: 0 <= k < |profiles| ==> PlainGroups(fs, parsers, Split(location, ';'), name, profiles[k])
  }

  /** The source a plain candidate contributes: none when it is absent. */
  function PlainSource(fs: FileSystem, parsers: Parsers, c: ConfigLocations.Candidate): seq<Source> {
    if c.path in fs && fs[c.path].File? && parsers.properties(fs[c.path].content).Success? then
      [Enumerable(MapSources.SetProperties(MapSources.MapPropertySourceOf(c.path), parsers.properties(fs[c.path].content).value))]
    else []
  }

  /** The reference order of the search: candidates in turn, ... */
  function CandidateSources(fs: FileSystem, parsers: Parsers, cs: seq<ConfigLocations.Candidate>, i: nat): seq<Source>
    requires i <= |cs|
    decreases |cs| - i
  {
    if i == |cs| then [] else PlainSource(fs, parsers, cs[i]) + CandidateSources(fs, parsers, cs, i + 1)
  }

  /** ... the `;`-groups of a location in turn, ... */
  function GroupSources(fs: FileSystem, parsers: Parsers, groups: seq<string>, i: nat, name: string, profile: string): seq<Source>
    requires i <= |groups|
    decreases |groups| - i
  {
    if i == |groups| then []
    else CandidateSources(fs, parsers, ConfigLocations.Candidates(groups[i], name, profile), 0)
         + GroupSources(fs, parsers, groups, i + 1, name, profile)
  }

  /** ... the active profiles in turn, inside each location, ... */
  function ProfileSources(fs: FileSystem, parsers: Parsers, location: string, name: string, profiles: seq<string>, i: nat): seq<Source>
    decreases |profiles| - i
  {
    if i >= |profiles| then []
    else GroupSources(fs, parsers, Split(location, ';'), 0, name, profiles[i])
         + ProfileSources(fs, parsers, location, name, profiles, i + 1)
  }

  /** ... and the locations in turn, outermost. */
  function LocationSources(fs: FileSystem, parsers: Parsers, locations: seq<string>, j: nat, name: string, profiles: seq<string>): seq<Source>
    requires j <= |locations|
    decreases |locations| - j
  {
    if j == |locations| then []
    else ProfileSources(fs, parsers, locations[j], name, profiles, 0)
         + LocationSources(fs, parsers, locations, j + 1, name, profiles)
  }

  /** Appending `a` and then `b` is appending `a + b`. */
  lemma AppendTwice(st: Loaded, a: seq<Source>, b: seq<Source>)
    ensures Loaded(st.profiles, (st.sources + a) + b) == Loaded(st.profiles, st.sources + (a + b))
  {
  }

  /** A plain candidate appends its source, if any, and nothing else. */
  lemma LoadPlainCandidate(fs: FileSystem, parsers: Parsers, st: Loaded, c: ConfigLocations.Candidate, fuel: nat)
    requires PlainCandidate(fs, parsers, c)
    ensures LoadFile(fs, parsers, st, c.path, c.fantomExt, fuel)
            == Success(Loaded(st.profiles, st.sources + PlainSource(fs, parsers, c)))
  {
    if c.path in fs {
      var m := parsers.properties(fs[c.path].content).value;
      var source := MapSources.SetProperties(MapSources.MapPropertySourceOf(c.path), m);
      assert ParseSource(parsers, c.path, PropertiesExt, fs[c.path].content) == Success(source);
      assert !MapSources.HasProperty(source, "config.import") && !MapSources.HasProperty(source, "profiles.active");
      assert LoadContent(fs, parsers, st, c.path, PropertiesExt, fs[c.path].content, fuel) == Success(Register(st, source));
    } else {
      assert st.sources + [] == st.sources;
    }
  }

  lemma {:induction false} LoadCandidatesOfPlain(fs: FileSystem, parsers: Parsers, st: Loaded,
                                                 cs: seq<ConfigLocations.Candidate>, i: nat, fuel: nat)
    requires i <= |cs| && PlainCandidates(fs, parsers, cs)
    ensures LoadCandidates(fs, parsers, st, cs, i, fuel)
            == Success(Loaded(st.profiles, st.sources + CandidateSources(fs, parsers, cs, i)))
    decreases |cs| - i
  {
    if i == |cs| {
      assert st.sources + [] == st.sources;
    } else {
      LoadPlainCandidate(fs, parsers, st, cs[i], fuel);
      var next := Loaded(st.profiles, st.sources + PlainSource(fs, parsers, cs[i]));
      LoadCandidatesOfPlain(fs, parsers, next, cs, i + 1, fuel);
      AppendTwice(st, PlainSource(fs, parsers, cs[i]), CandidateSources(fs, parsers, cs, i + 1));
    }
  }

  lemma {:induction false} LoadGroupsOfPlain(fs: FileSystem, parsers: Parsers, st: Loaded, groups: seq<string>, i: nat,
                                             name: string, profile: string, fuel: nat)
    requires i <= |groups| && PlainGroups(fs, parsers, groups, name, profile)
    ensures LoadGroups(fs, parsers, st, groups, i, name, profile, fuel)
            == Success(Loaded(st.profiles, st.sources + GroupSources(fs, parsers, groups, i, name, profile)))
    decreases |groups| - i
  {
    if i == |groups| {
      assert st.sources + [] == st.sources;
    } else {
      var cs := ConfigLocations.Candidates(groups[i], name, profile);
      assert PlainCandidates(fs, parsers, cs);
      LoadCandidatesOfPlain(fs, parsers, st, cs, 0, fuel);
      var a := CandidateSources(fs, parsers, cs, 0);
      var next := Loaded(st.profiles, st.sources + a);
      LoadGroupsOfPlain(fs, parsers, next, groups, i + 1, name, profile, fuel);
      AppendTwice(st, a, GroupSources(fs, parsers, groups, i + 1, name, profile));
    }
  }

  lemma {:induction false} LoadProfilesOfPlain(fs: FileSystem, parsers: Parsers, st: Loaded, location: string, i: nat,
                                               name: string, fuel: nat)
    requires PlainLocation(fs, parsers, location, name, st.profiles)
    ensures LoadProfilesFrom(fs, parsers, st, location, i, name, fuel)
            == Success(Loaded(st.profiles, st.sources + ProfileSources(fs, parsers, location, name, st.profiles, i)))
    decreases |st.profiles| - i
  {
    if i >= |st.profiles| {
      assert st.sources + [] == st.sources;
    } else {
      var groups := Split(location, ';');
      assert PlainGroups(fs, parsers, groups, name, st.profiles[i]);
      LoadGroupsOfPlain(fs, parsers, st, groups, 0, name, st.profiles[i], fuel);
      var a := GroupSources(fs, parsers, groups, 0, name, st.profiles[i]);
      var next := Loaded(st.profiles, st.sources + a);
      LoadProfilesOfPlain(fs, parsers, next, location, i + 1, name, fuel);
      AppendTwice(st, a, ProfileSources(fs, parsers, location, name, st.profiles, i + 1));
    }
  }

  lemma {:induction false} LoadLocationsOfPlain(fs: FileSystem, parsers: Parsers, st: Loaded, locations: seq<string>, j: nat,
                                                name: string, fuel: nat)
    requires j <= |locations|
    requires forall k :: j <= k < |locations| ==> PlainLocation(fs, parsers, locations[k], name, st.profiles)
    ensures LoadLocations(fs, parsers, st, locations, j, name, fuel)
            == Success(Loaded(st.profiles, st.sources + LocationSources(fs, parsers, locations, j, name, st.profiles)))
    decreases |locations| - j
  {
    if j == |locations| {
      assert st.sources + [] == st.sources;
    } else {
      assert PlainLocation(fs, parsers, locations[j], name, st.profiles);
      LoadProfilesOfPlain(fs, parsers, st, locations[j], 0, name, fuel);
      var a := ProfileSources(fs, parsers, locations[j], name, st.profiles, 0);
      var next := Loaded(st.profiles, st.sources + a);
      assert LoadProfilesFrom(fs, parsers, st, locations[j], 0, name, fuel) == Success(next);
      LoadLocationsOfPlain(fs, parsers, next, locations, j + 1, name, fuel);
      var rest := LocationSources(fs, parsers, locations, j + 1, name, st.profiles);
      assert LocationSources(fs, parsers, locations, j, name, st.profiles) == a + rest;
      AppendTwice(st, a, rest);
    }
  }

  /** Every candidate of every location under every profile is plain. */
  predicate PlainSearch(fs: FileSystem, parsers: Parsers, locations: seq<string>, name: string, profiles: seq<string>) {
    forall k :: 0 <= k < |locations| ==> PlainLocation(fs, parsers, locations[k], name, profiles)
  }

  /** "Last wins: `application.yaml`, then `application-<profile>.yaml`":
      over plain files the whole search registers its sources location by
      location, and within a location profile by profile in the order of
      the active list, so a later profile's files are searched first. */
  lemma LoadApplicationConfigurationOfPlain(fs: FileSystem, parsers: Parsers, params: MapSources.MapPropertySource,
                                            environ: MapSources.MapPropertySource, bootstrap: string, fuel: nat)
    requires PlainSearch(fs, parsers, Split(ConfigLocations.ResolvedConfigLocation(params.properties, environ.properties), ','),
                         ConfigLocations.ConfigName(params.properties, environ.properties),
                         ConfigLocations.ActiveProfilesOf(params.properties, environ.properties, bootstrap))
    ensures LoadApplicationConfiguration(fs, parsers, params, environ, bootstrap, fuel)
            == Success(Loaded(ConfigLocations.ActiveProfilesOf(params.properties, environ.properties, bootstrap),
                              LocationSources(fs, parsers,
                                              Split(ConfigLocations.ResolvedConfigLocation(params.properties, environ.properties), ','), 0,
                                              ConfigLocations.ConfigName(params.properties, environ.properties),
                                              ConfigLocations.ActiveProfilesOf(params.properties, environ.properties, bootstrap))))
  {
    var profiles := ConfigLocations.ActiveProfilesOf(params.properties, environ.properties, bootstrap);
    var name := ConfigLocations.ConfigName(params.properties, environ.properties);
    var locations := Split(ConfigLocations.ResolvedConfigLocation(params.properties, environ.properties), ',');
    var st := Loaded(profiles, []);
    assert forall k :: 0 <= k < |locations| ==> PlainLocation(fs, parsers, locations[k], name, st.profiles);
    LoadLocationsOfPlain(fs, parsers, st, locations, 0, name, fuel);
    assert [] + LocationSources(fs, parsers, locations, 0, name, profiles) == LocationSources(fs, parsers, locations, 0, name, profiles);
  }

  /** With the active list `default, p`, one location registers its
      default files first and then its `p` files, so that a `p` file
      overrides a default one. */
  lemma ProfileFilesComeLast(fs: FileSystem, parsers: Parsers, st: Loaded, location: string, name: string, p: string, fuel: nat)
    requires st.profiles == ["default", p] && PlainLocation(fs, parsers, location, name, st.profiles)
    ensures LoadProfilesFrom(fs, parsers, st, location, 0, name, fuel)
            == Success(Loaded(st.profiles, st.sources
                                           + GroupSources(fs, parsers, Split(location, ';'), 0, name, "default")
                                           + GroupSources(fs, parsers, Split(location, ';'), 0, name, p)))
  {
    LoadProfilesOfPlain(fs, parsers, st, location, 0, name, fuel);
    var groups := Split(location, ';');
    var d := GroupSources(fs, parsers, groups, 0, name, "default");
    var q := GroupSources(fs, parsers, groups, 0, name, p);
    assert ProfileSources(fs, parsers, location, name, st.profiles, 2) == [];
    assert ProfileSources(fs, parsers, location, name, st.profiles, 1) == q + [] == q;
    assert ProfileSources(fs, parsers, location, name, st.profiles, 0) == d + q;
    AppendTwice(st, d, q);
  }

  /** The profile loop reads the active list afresh: when a default file of
      this location sets `profiles.active` to `p`, the same location is
      then searched for the `p` files too. */
  lemma ProfilesAddedMeanwhileAreSearched(fs: FileSystem, parsers: Parsers, st: Loaded, location: string, name: string,
                                          p: string, next: Loaded, fuel: nat)
    requires st.profiles == ["default"]
    requires LoadGroups(fs, parsers, st, Split(location, ';'), 0, name, "default", fuel) == Success(next)
    requires next.profiles == ["default", p]
    ensures LoadProfilesFrom(fs, parsers, st, location, 0, name, fuel)
            == LoadGroups(fs, parsers, next, Split(location, ';'), 0, name, p, fuel)
  {
    var r := LoadGroups(fs, parsers, next, Split(location, ';'), 0, name, p, fuel);
    assert LoadProfilesFrom(fs, parsers, st, location, 0, name, fuel) == LoadProfilesFrom(fs, parsers, next, location, 1, name, fuel);
    if r.Success? {
      assert r.value.profiles == next.profiles;
      assert LoadProfilesFrom(fs, parsers, r.value, location, 2, name, fuel) == Success(r.value);
    }
  }

  /** Reading a directory fails with the read error. */
  lemma LoadDirectory(fs: FileSystem, parsers: Parsers, st: Loaded, path: string, fantomExt: string, fuel: nat)
    requires path in fs && fs[path] == Directory && SourceExt(path, fantomExt) != ""
    ensures LoadFile(fs, parsers, st, path, fantomExt, fuel)
            == Failure(Panic("Cannot read from " + path + "\nCaused by: read " + path + ": is a directory"))
  {
  }

  lemma {:induction false} LoadCandidatesOfNothing(parsers: Parsers, st: Loaded, cs: seq<ConfigLocations.Candidate>, i: nat, fuel: nat)
    requires i <= |cs|
    ensures LoadCandidates(map[], parsers, st, cs, i, fuel) == Success(st)
    decreases |cs| - i
  {
    if i < |cs| {
      LoadCandidatesOfNothing(parsers, st, cs, i + 1, fuel);
    }
  }

  lemma {:induction false} LoadGroupsOfNothing(parsers: Parsers, st: Loaded, groups: seq<string>, i: nat,
                                               name: string, profile: string, fuel: nat)
    requires i <= |groups|
    ensures LoadGroups(map[], parsers, st, groups, i, name, profile, fuel) == Success(st)
    decreases |groups| - i
  {
    if i < |groups| {
      LoadCandidatesOfNothing(parsers, st, ConfigLocations.Candidates(groups[i], name, profile), 0, fuel);
      LoadGroupsOfNothing(parsers, st, groups, i + 1, name, profile, fuel);
    }
  }

  lemma {:induction false} LoadProfilesOfNothing(parsers: Parsers, st: Loaded, location: string, i: nat, name: string, fuel: nat)
    ensures LoadProfilesFrom(map[], parsers, st, location, i, name, fuel) == Success(st)
    decreases |st.profiles| - i
  {
    if i < |st.profiles| {
      LoadGroupsOfNothing(parsers, st, Split(location, ';'), 0, name, st.profiles[i], fuel);
      LoadProfilesOfNothing(parsers, st, location, i + 1, name, fuel);
    }
  }

  lemma {:induction false} LoadLocationsOfNothing(parsers: Parsers, st: Loaded, locations: seq<string>, j: nat, name: string, fuel: nat)
    requires j <= |locations|
    ensures LoadLocations(map[], parsers, st, locations, j, name, fuel) == Success(st)
    decreases |locations| - j
  {
    if j < |locations| {
      LoadProfilesOfNothing(parsers, st, locations[j], 0, name, fuel);
      LoadLocationsOfNothing(parsers, st, locations, j + 1, name, fuel);
    }
  }

  /** With no configuration files, a new environment holds the bootstrap
      profiles and only the random-value and Base64 sources, Base64 first. */
  lemma NewEnvironmentOfNothing(parsers: Parsers, environ: seq<string>, args: seq<string>, bootstrap: string,
                                compile: string -> Regex.Regexp, fuel: nat)
    ensures var r := NewEnvironment(map[], parsers, environ, args, bootstrap, compile, fuel);
            var params := Arguments.LoadApplicationParameters(args);
            var environSource := Arguments.LoadEnvironmentVariables(environ);
            && r.Success?
            && r.value.sources == [RandomSource, Base64Source]
            && PropertySources(r.value) == [Base64Source, RandomSource]
            && r.value.activeProfiles == ConfigLocations.ActiveProfilesOf(params.properties, environSource.properties, bootstrap)
  {
    var params := Arguments.LoadApplicationParameters(args);
    var environSource := Arguments.LoadEnvironmentVariables(environ);
    var profiles := ConfigLocations.ActiveProfilesOf(params.properties, environSource.properties, bootstrap);
    var name := ConfigLocations.ConfigName(params.properties, environSource.properties);
    var locations := Split(ConfigLocations.ResolvedConfigLocation(params.properties, environSource.properties), ',');
    LoadLocationsOfNothing(parsers, Loaded(profiles, []), locations, 0, name, fuel);
    assert LoadApplicationConfiguration(map[], parsers, params, environSource, bootstrap, fuel) == Success(Loaded(profiles, []));
  }

  /** The file's text comes down to its one import. */
  lemma {:induction false} SelfImportStep(fs: FileSystem, parsers: Parsers, st: Loaded, path: string,
                                          m: map<string, string>, fuel: nat)
    requires path in fs && fs[path].File? && ConfigLocations.Ext(path) == PropertiesExt
    requires parsers.properties(fs[path].content) == Success(m)
    requires "config.import" in m && ',' !in m["config.import"]
    ensures LoadFile(fs, parsers, st, path, "", fuel)
            == LoadImports(fs, parsers, Register(st, MapSources.SetProperties(MapSources.MapPropertySourceOf(path), m)),
                           path, [m["config.import"]], 0, fuel)
  {
    var imp := m["config.import"];
    var source := MapSources.SetProperties(MapSources.MapPropertySourceOf(path), m);
    assert ParseSource(parsers, path, PropertiesExt, fs[path].content) == Success(source);
    assert MapSources.HasProperty(source, "config.import") && source.properties["config.import"] == imp;
    assert Split(imp, ',') == [imp] by { assert IndexOf(imp, ',') == |imp|; }
  }

  /** A `.properties` file whose only import is itself recurses until the
      fuel runs out, whatever the fuel: the import chain has no end. */
  lemma {:induction false} SelfImportDiverges(fs: FileSystem, parsers: Parsers, st: Loaded, path: string,
                                              m: map<string, string>, fuel: nat)
    requires path in fs && fs[path].File? && ConfigLocations.Ext(path) == PropertiesExt
    requires parsers.properties(fs[path].content) == Success(m)
    requires "config.import" in m && ',' !in m["config.import"]
    requires ConfigLocations.SplitHint(m["config.import"]) == ConfigLocations.Hinted(m["config.import"], "")
    requires !HasSuffix(m["config.import"], "/") && Files.RelativePath(path, m["config.import"]) == path
    ensures LoadFile(fs, parsers, st, path, "", fuel) == Failure(DidNotConverge)
    decreases fuel
  {
    var imp := m["config.import"];
    var next := Register(st, MapSources.SetProperties(MapSources.MapPropertySourceOf(path), m));
    SelfImportStep(fs, parsers, st, path, m, fuel);
    if fuel > 0 {
      SelfImportDiverges(fs, parsers, next, path, m, fuel - 1);
    }
    assert LoadImport(fs, parsers, next, path, imp, fuel) == Failure(DidNotConverge);
  }
}
