# go-external-config property resolution, modelled in Dafny

go-external-config gives a Go program Spring-style external configuration.
Properties come from several places:

- command-line arguments (`--key=value`);
- environment variables, matched by exact key and then by canonical form (`a.b-c` becomes `A_BC`);
- `.properties` and YAML files, found per location and per active profile, plus the files they import;
- two derived sources: `random.*` values, and `Base64:` values decoded.

A value is resolved by a fixed-point template engine. It rewrites
`${key}`, `${key:default}`, `#{expr}` and `###{expr}###` until a pass
changes nothing. Active profiles can be tested with a small boolean language
(`p1 & !p2 | p3`).

This project models that core as pure functions over explicit state. The
global environment becomes an `Option<Environment>` passed in and returned.
The regex engine, the expression backend, the YAML and `.properties`
parsers, the file system, the process environment and the random byte
stream all become parameters.

Modules follow the repository's files:

| module | file | models |
|---|---|---|
| `Lang` | lang.dfy | lang/Lang.go |
| `Optionals` | optional.dfy | util/optional/Optional.go |
| `Collection` | collection.dfy | util/collection/Collection.go |
| `Regex` | match.dfy | util/regex/Match.go and the abstract match finder |
| `Text` | pattern_processor.dfy | util/text/PatternProcessor.go |
| `ExprProcessing` | expr_processor.dfy | env/ExprProcessor.go |
| `MapSources` | map_source.dfy | env/MapPropertySource.go |
| `Yaml` | yaml.dfy | env/YamlPropertySource.go |
| `Base64` | base64.dfy | env/Base64PropertySource.go and RFC 4648 section 4 |
| `RandomValues` | random.dfy | env/RandomValuePropertySource.go |
| `Environments` | environment.dfy | lookup, canonical form, profiles and sources of env/Environment.go |
| `Arguments` | arguments.dfy | `loadEnvironmentVariables` and `loadApplicationParameters` |
| `ConfigLocations` | config.dfy | profile, name and location choice, the `[.ext]` hint, candidate files |
| `Loading` | loading.dfy | `newEnvironment`, `loadFile`, `loadImport` and the search loops |
| `Profiles` | profiles.dfy | the `MatchesProfiles` rewrite and a boolean evaluator |
| `Env` | env.dfy | env/env.go: `SetActiveProfiles`, `Instance`, `Value`, configuration-property keys |
| `Files` | files.dfy | `RelativePath` with `filepath.Join`/`Clean` written out |
| `Strings`, `Bytes`, `Values`, `WordScan`, `Wrappers` | | `strings` helpers, hex, `fmt.Sprint`, two concrete scanners, `Result`/`Option` |

The stand-ins work as follows:

- A Go panic is `Failure(Panic(message))`, with the source's message text.
- An iteration the source never bounds carries `fuel`, and running out of it is `Failure(DidNotConverge)`. This covers the fixed-point loop and the import chain.
- A regex is a `Regexp(names, findAll)`. `ValidRegexp` requires every scan to be ordered, non-overlapping and well-formed.
- Concrete finders are proved valid for `\w+` and for `(?P<word>\w+)|(?P<sign>\W)`, the profile matcher's pattern.

## Model

| member | source | states |
|---|---|---|
| Lang.If | lang/Lang.go:3-8 | the first value when the condition holds, the second otherwise |
| Lang.FirstNonEmpty | lang/Lang.go:10-18 | the result is the zero value exactly when every argument is; otherwise it is an argument and every earlier one is empty |
| Lang.FirstNonEmptyOfNothing | lang/Lang.go:11-17 | no arguments give the zero value |
| Lang.FirstNonEmptyPicksEarliest | lang/Lang.go:12-17 | the first non-empty argument is the one returned |
| Optionals.OfNilable | util/optional/Optional.go:15-19 | present exactly when the value is not nil, holding it |
| Optionals.OfNilableCases | util/optional/Optional_test.go:10-30 | `0` and `""` are present; a nil interface, pointer and map are absent |
| Optionals.OfEmpty | util/optional/Optional.go:21-23 | absent and not errored |
| Optionals.OfValue | util/optional/Optional.go:25-29 | present, holding its argument |
| Optionals.OfCommaOk | util/optional/Optional.go:31-36 | present exactly when `ok`, holding the value |
| Optionals.OfCommaErr | util/optional/Optional.go:38-45 | an error gives an absent optional that records it; no error gives the value |
| Optionals.OfEntry | util/optional/Optional.go:47-53 | present exactly when the key is in the map, holding its entry |
| Optionals.OfEntryIsCommaOk | util/optional/Optional.go:47-53 | `OfEntry` is `OfCommaOk` of the map's comma-ok read |
| Optionals.OrElse | util/optional/Optional.go:64-66 | the held value when present, the default otherwise |
| Optionals.OrElseOptional | util/optional/Optional.go:68-70 | the receiver when present, the other optional otherwise |
| Optionals.OrElseOfOrElseOptional | util/optional/Optional.go:64-70 | `OrElse` after `OrElseOptional` is a nested `OrElse`: the fallbacks chain |
| Optionals.OrElsePanic | util/optional/Optional.go:72-83 | succeeds exactly when present; an absent value fails with the message, and a recorded error is appended as its cause |
| Optionals.OrElseAgreesWithOrElsePanic | util/optional/Optional.go:64-83 | `OrElse` and `OrElsePanic` agree whenever the latter succeeds, and `OrElse` gives the default when it fails |
| Optionals.Value | util/optional/Optional.go:59-62 | succeeds exactly when present; an absent value fails with "No value present" |
| Collection.SliceToSet | util/collection/Collection.go:3-9 | the keys are exactly the slice's elements |
| Collection.SubtractSliceContents | util/collection/Collection.go:12-21 | the result keeps exactly the elements of `a` not in `b`, each as often as in `a`, as a subsequence of `a` |
| Collection.SubsequenceIsShorter | util/collection/Collection.go:15-19 | a subsequence is no longer than its sequence |
| Collection.SubtractSliceIsShorter | util/collection/Collection.go:15-19 | `SubtractSlice(a, b)` is no longer than `a` |
| Collection.SubtractSliceExample | util/collection/Collection_test.go:10-15 | `[1,2,3,4,5]` minus `[4,3,2]` is `[1,5]` |
| Collection.ReverseSlice | env/Environment.go:123-125 | element `i` of the result is element `n-1-i` of the input |
| Collection.ReverseSliceTwice | env/Environment.go:123-125 | reversing twice gives the input back |
| Collection.ReverseSliceAppend | env/Environment.go:247-250 | a source appended last comes first in the reversed list |
| Regex.MatchOf | util/regex/Match.go:15-32 | `Expr` is `str[m[0]:m[1]]`; exactly the participating groups are recorded with their text; only non-empty names are recorded |
| Regex.GroupsUpTo | util/regex/Match.go:22-30 | after `k` groups, the recorded indices are the participating ones below `k`, and each name holds its last participating group |
| Regex.ExprIsGroupZero | util/regex/Match.go:18-44 | group 0 is `Expr()`, and `GroupCount` counts the participating groups, at least one |
| Regex.GroupPresence | util/regex/Match.go:22-25 | group `idx` is present exactly when `m[2*idx] >= 0`, holding the text between its indices |
| Regex.NamedGroupAgrees | util/regex/Match.go:26-28 | a uniquely named participating group gives the same value by name as by index |
| Regex.NamedGroupAbsent | util/regex/Match.go:46-48 | a name none of whose groups participates is absent |
| Regex.MatchExample | util/regex/Match_test.go:22-27 | of two alternatives, the non-participating group is absent by index and by name while the other is present |
| WordScan.ScannersAreValid | util/text/PatternProcessor_test.go:11-26 | the `\w+` and word-or-sign scanners return ordered, non-overlapping, well-formed matches |
| Text.CompiledSource | util/text/PatternProcessor.go:17-21 | a pattern with its own flags is compiled as is; any other gets `(?ms)` in front |
| Text.PatternProcessorOf | util/text/PatternProcessor.go:17-21 | the processor uses the compiled pattern, and its resolver panics "Not implemented" |
| Text.OverrideResolve | util/text/PatternProcessor.go:63-68 | the new resolver is `f(m)(previous resolver)`, and the pattern is unchanged |
| Text.Loop | util/text/PatternProcessor.go:32-59 | a string result in recursive mode is a fixed point of one more pass; no fuel means `DidNotConverge` |
| Text.ProcessRecursive | util/text/PatternProcessor.go:27-61 | the empty input is returned unchanged; a string result in recursive mode is a fixed point |
| Text.Process | util/text/PatternProcessor.go:23-25 | the recursive mode of `ProcessRecursive`, so every string result is a fixed point |
| Text.NonRecursiveIsOnePass | util/text/PatternProcessor.go:56 | with `recursive=false` the result is exactly one pass |
| Text.LoopFuelMonotonic | util/text/PatternProcessor.go:32-59 | once the loop converges with some fuel, more fuel gives the same result |
| Text.PassWithoutHits | util/text/PatternProcessor.go:35-58 | a text with no matches is left unchanged by a pass |
| Text.PassWholeMatch | util/text/PatternProcessor.go:40-47 | when the single match spans the whole text, a non-string resolver result is returned as is, and a string replaces the text |
| Text.PassSingleHit | util/text/PatternProcessor.go:48-54 | a single match that runs to the end is replaced by its resolved text after the untouched prefix |
| Text.SpliceStep | util/text/PatternProcessor.go:48-54 | the output is the literal gap, the `Sprint` of the resolved match, then the rest, in match order |
| Text.LoopStep | util/text/PatternProcessor.go:56-59 | a pass that changes the text continues the loop on the new text |
| Text.EndlessGrowthDiverges | util/text/PatternProcessor.go:32-59 | when every pass produces a different text, the loop does not converge for any fuel |
| Text.PassIdentity | util/text/PatternProcessor.go:48-54 | a resolver that returns each match's own text leaves every input unchanged |
| Text.ResolverFailureStops | util/text/PatternProcessor.go:32-54 | a failing resolver on the first match fails the whole process with the same error |
| Text.HelloWorldExample | util/text/PatternProcessor_test.go:11-26 | with `\w+` and World mapped to Mike, `" Hello World! "` becomes `" Hello Mike! "` |
| ExprProcessing.TimeUnits | env/ExprProcessor.go:29-37 | the `time` binding maps distinct unit names to positive durations |
| ExprProcessing.ExprProcessorOf | env/ExprProcessor.go:23-39 | the processor has the requested strictness, a context holding only `time`, and the compiled placeholder pattern |
| ExprProcessing.Define | env/ExprProcessor.go:69-71 | binding `k` gets the value and every other binding, the pattern and the flag are unchanged |
| ExprProcessing.Reset | env/ExprProcessor.go:73-75 | the context is emptied and nothing else changes |
| ExprProcessing.SetStrict | env/ExprProcessor.go:86-88 | only the flag changes |
| ExprProcessing.ExpressionText | env/ExprProcessor.go:61-63 | the `expr` group when it is non-empty, else the `complex` group |
| ExprProcessing.Resolve | env/ExprProcessor.go:41-67 | strict mode is the strict resolution; lenient mode never fails, giving the match's own text where the strict one would fail |
| ExprProcessing.Processor | env/ExprProcessor.go:23-28 | the pattern processor that resolves each match with `Resolve` |
| ExprProcessing.Process | util/text/PatternProcessor.go:23-25 | the empty text is returned unchanged, and every string result is a fixed point of one more pass |
| ExprProcessing.ResolveFoundKey | env/ExprProcessor.go:50-55 | a found key is replaced by its raw text, unresolved |
| ExprProcessing.ResolveDefault | env/ExprProcessor.go:56-57 | a missing key with a default is replaced by the default text |
| ExprProcessing.ResolveMissing | env/ExprProcessor.go:43-59 | a missing key without a default fails with "Cannot resolve property ${key}" in strict mode and stays as written in lenient mode |
| ExprProcessing.ResolveExpression | env/ExprProcessor.go:61-64 | an expression's value is the evaluated context result, and a nil result fails with "Cannot evaluate expression" |
| ExprProcessing.SelfReferenceIsFixedPoint | env/ExprProcessor.go:50-55 | `x=${x}` resolves `${x}` to itself: already a fixed point |
| ExprProcessing.GrowingSelfReferenceDiverges | env/ExprProcessor.go:50-55 | `a=c${a}` with a non-empty `c` never converges, whatever the fuel |
| ExprProcessing.GrowingSelfReferenceExample | env/ExprProcessor.go:50-55 | `a=x${a}` never converges |
| ExprProcessing.PassOfPlaceholder | env/ExprProcessor.go:50-55 | one pass over `${key}` gives the raw value text |
| ExprProcessing.PassOfExpression | env/ExprProcessor.go:61-64 | a whole-text expression with a non-string value yields that value itself |
| ExprProcessing.PlaceholderOfExpression | env/Env_test.go:24-27 | `${int}` with `int=#{123}` resolves, through two passes, to the expression's non-string value |
| MapSources.MapPropertySourceOf | env/MapPropertySource.go:12-16 | a new source has the name given and no properties |
| MapSources.MapPropertySourceOfMap | env/MapPropertySource.go:18-22 | a new source has the name and map given |
| MapSources.Property | env/MapPropertySource.go:33-37 | succeeds exactly when the key is held, with its value; otherwise fails naming source and key |
| MapSources.HasPropertyAgreement | env/MapPropertySource.go:28-54 | `ContainsProperty`, `HasProperty` and a successful `Property` agree |
| MapSources.SetProperty | env/MapPropertySource.go:39-41 | the key then reads as the value and every other key reads as before |
| MapSources.SetProperties | env/MapPropertySource.go:43-49 | the map is replaced: exactly its keys are held |
| MapSources.SetPropertyExample | env/MapPropertySource_test.go:11-16 | setting `prop5` keeps `prop1` and adds `prop5` |
| Yaml.Child | env/YamlPropertySource.go:33-40 | the key under a prefix is `p.k`, or just `k` under the empty prefix |
| Yaml.Apply | env/YamlPropertySource.go:31-49 | the keys written are the original ones and every leaf path |
| Yaml.ApplyAppend | env/YamlPropertySource.go:31-49 | writing two runs of leaves is writing the first and then the second |
| Yaml.ApplyUntouched | env/YamlPropertySource.go:31-49 | a key no leaf writes keeps its value |
| Yaml.ApplyLast | env/YamlPropertySource.go:46-47 | a key holds the text of the last leaf that writes it |
| Yaml.FlattenIsApply | env/YamlPropertySource.go:31-49 | `flattenYaml` equals writing the node's leaves in order |
| Yaml.FlattenEntriesIsApply | env/YamlPropertySource.go:33-40 | a mapping writes its entries' leaves in entry order |
| Yaml.FlattenItemsIsApply | env/YamlPropertySource.go:41-45 | a sequence writes its items' leaves, item `i` under `p[i]` |
| Yaml.PropertiesOf | env/YamlPropertySource.go:20-29 | the keys are exactly the leaf paths, and each holds its last leaf's text |
| Yaml.NewYamlPropertySource | env/YamlPropertySource.go:13-29 | an unparsable document fails with the unmarshal message; a parsed one gives its flattened leaves under the name given |
| Yaml.TwoScalars | env/YamlPropertySource.go:33-47 | two scalar entries give two leaves `p.k1`, `p.k2` in order |
| Yaml.OneEntry | env/YamlPropertySource.go:33-40 | one entry's leaves are its value's leaves under `p.k` |
| Yaml.TwoItems | env/YamlPropertySource.go:41-45 | two items give their leaves under `p[0]` then `p[1]` |
| Yaml.ScalarThenNode | env/YamlPropertySource.go:33-47 | a scalar entry then a nested node give the scalar leaf then the node's leaves |
| Yaml.SubArrayLeaves | env/YamlPropertySource_test.go:32-37 | `c.array[1].sub-array[0].sub1` is produced |
| Yaml.TestArrayLeaves | env/YamlPropertySource_test.go:12-37 | the test's array tree flattens to the indexed keys the test expects |
| Yaml.TestMappingLeaves | env/YamlPropertySource_test.go:32-37 | `a.key2` holds the text `2.5` |
| Base64.CharValue | env/Base64PropertySource.go:37-38 | an alphabet character's value is below 64 |
| Base64.EncodeChar | env/Base64PropertySource.go:37-38 | encoding a sextet gives an alphabet character whose value is that sextet |
| Base64.Encode | env/Base64PropertySource.go:37-38 | an encoding has a length divisible by four and correct padding |
| Base64.DecodeEncode | env/Base64PropertySource.go:37-38 | decoding an encoding gives the bytes back |
| Base64.DecodeIgnoresLineBreaks | env/Base64PropertySource.go:37-38 | `\n` and `\r` inside the text do not change the decoding |
| Base64.StripNewlines | env/Base64PropertySource.go:37-38 | no line break remains |
| Base64.StripAppend | env/Base64PropertySource.go:37-38 | stripping line breaks distributes over concatenation |
| Base64.TrimLineEnds | env/Base64PropertySource.go:37-38 | the result is a prefix that does not end in `\n` or `\r`, and only those were cut |
| Base64.FirstHolder | env/Base64PropertySource.go:24-29 | absent exactly when no enumerable source has the key; otherwise the value of the first one that has it |
| Base64.HasProperty | env/Base64PropertySource.go:24-31 | false without an enumerable holder; otherwise true exactly when the first holder's value starts with `Base64:` |
| Base64.Property | env/Base64PropertySource.go:33-42 | no holder fails "No value present for key"; success is the decoded text after the prefix with trailing line ends trimmed |
| Base64.PropertyOfEncoded | env/Base64PropertySource.go:33-39 | a first holder with `Base64:` + encoding of `bs` gives `bs` as text |
| Base64.DerivedSourcesAreSkipped | env/Base64PropertySource.go:44-46 | a derived source ahead of the others does not change the holder |
| Bytes.BytesToString | env/Base64PropertySource.go:37 | each byte becomes the character with the same code |
| Bytes.Hex | env/RandomValuePropertySource.go:107-111 | two lowercase hex digits per byte |
| Bytes.ParseHexOfHex | env/RandomValuePropertySource.go:107-111 | parsing the hex text gives the bytes back |
| Bytes.HexAppend | env/RandomValuePropertySource.go:104 | hex of a concatenation is the concatenation of hexes |
| RandomValues.CharRun | env/RandomValuePropertySource.go:17 | a run of `n` consecutive characters, from which the 62 letters are built |
| RandomValues.Call | env/RandomValuePropertySource.go:19 | a parsed call reads back as `name(arg)` |
| RandomValues.ParseBound | env/RandomValuePropertySource.go:19 | a parsed bound is well formed and prints as its text |
| RandomValues.ParseKey | env/RandomValuePropertySource.go:19 | a parsed key starts with `random.`, is well formed and prints as the key |
| RandomValues.ParseKeyText | env/RandomValuePropertySource.go:19 | every well-formed key form parses back from its text |
| RandomValues.ParseKeyIsInverse | env/RandomValuePropertySource.go:19 | a key parses to a form exactly when the form is well formed and prints as that key |
| RandomValues.ParseInt | env/RandomValuePropertySource.go:75-87 | present exactly when the decimal value fits the bit width, holding it; otherwise the `strconv` range error |
| RandomValues.Atoi | env/RandomValuePropertySource.go:63-68 | present exactly when the value fits 64 bits; otherwise the `strconv.Atoi` range error |
| RandomValues.Int64Of | env/RandomValuePropertySource.go:117 | an `int64` wrap-around: in range, and the identity on values already in range |
| RandomValues.Int32Of | env/RandomValuePropertySource.go:77-79 | an `int32` truncation: in range, and the identity on values already in range |
| RandomValues.WrapCancels | env/RandomValuePropertySource.go:113-118 | `n.Int64() + min` wraps back into `[min, max)` for the full 64-bit range |
| RandomValues.ReadFull | env/RandomValuePropertySource.go:99-122 | succeeds exactly when enough bytes are available, returning the first `n` |
| RandomValues.RandInt | env/RandomValuePropertySource.go:115-116 | a drawn value lies in `[0, max)` |
| RandomValues.RandomInt64Value | env/RandomValuePropertySource.go:113-118 | `max <= min` fails "Invalid range"; a result lies in `[min, max)` |
| RandomValues.Stamp | env/RandomValuePropertySource.go:100-102 | byte 6 gets version 4, byte 8 gets variant bits `10`, and the low bits and every other byte are kept |
| RandomValues.UuidText | env/RandomValuePropertySource.go:104 | 36 characters with dashes at 8, 13, 18 and 23 |
| RandomValues.RandomUuid | env/RandomValuePropertySource.go:97-105 | 36 characters with version digit `4` and variant digit in `89ab`; fails without 16 bytes |
| RandomValues.RandomUuidBytes | env/RandomValuePropertySource.go:97-105 | the hex digits of the UUID are the stamped random bytes |
| RandomValues.RandomValue | env/RandomValuePropertySource.go:107-111 | `2n` lowercase hex digits that parse back to the `n` random bytes |
| RandomValues.RandomString | env/RandomValuePropertySource.go:120-128 | length `n`, character `i` is `letters[b_i mod 62]` |
| RandomValues.LettersOf | env/RandomValuePropertySource.go:124-126 | each byte maps to `letters[b mod 62]` |
| RandomValues.RandomStringIsAlphanumeric | env/RandomValuePropertySource.go:17-128 | every character of a random string is a letter or a digit |
| RandomValues.Property | env/RandomValuePropertySource.go:54-95 | an unrecognised key fails "Cannot process key", and only `random.` keys succeed |
| RandomValues.RangeValue | env/RandomValuePropertySource.go:71-92 | no bound draws over the full 64-bit range; a bounded draw lies in `[min, max)`, `min` being 0 when only `max` is given, and within the bit width |
| RandomValues.UuidKeyLength | env/RandomValuePropertySource.go:57-60 | `random.uuid` gives 36 characters |
| RandomValues.StringKeyLength | env/RandomValuePropertySource.go:61-65 | `random.string(n)` gives `n` characters |
| RandomValues.ValueKeyLength | env/RandomValuePropertySource.go:66-70 | `random.value(n)` gives `2n` hex digits |
| RandomValues.DefaultValueKeyLength | env/RandomValuePropertySource.go:66-69 | `random.value` uses 8 bytes: 16 hex digits |
| RandomValues.IntKeyRange | env/RandomValuePropertySource.go:71-77 | `random.int(min,max)` lies in `[min, max)` |
| RandomValues.IntKeyMaxRange | env/RandomValuePropertySource.go:71-77 | `random.int(max)` lies in `[0, max)`; `random.int(0)` fails as an empty range |
| RandomValues.IntKeyFullRange | env/RandomValuePropertySource.go:78-80 | `random.int` is a full-range draw truncated to `int32` |
| RandomValues.Int64KeyMaxRange | env/RandomValuePropertySource.go:82-88 | `random.int64(max)` lies in `[0, max)`; `random.int64(0)` fails as an empty range |
| RandomValues.Int64KeyRange | env/RandomValuePropertySource.go:82-88 | `random.int64(min,max)` lies in `[min, max)` |
| Environments.SourceProperties | env/Base64PropertySource.go:44-46 | a map source is enumerable with its map; the random and Base64 sources are not |
| Environments.PropertySources | env/Environment.go:123-125 | the registered sources, last first |
| Environments.Enumerated | env/Environment.go:123-125 | each source's `Properties()` in first-wins order |
| Environments.ReplaceChars | env/Environment.go:22-27 | no `.`, `[`, `]` or `-` remains and the text gets no longer |
| Environments.CanonicalForm | env/Environment.go:239-241 | the result is canonical and no longer than the key |
| Environments.CanonicalFormOfChar | env/Environment.go:22-27 | `.`, `[`, `]` become `_`, `-` is deleted, and any other character is upper-cased |
| Environments.CanonicalFormAppend | env/Environment.go:239-241 | the canonical form works character by character |
| Environments.CanonicalFormFixedPoints | env/Environment.go:239-241 | a key is its own canonical form exactly when it is canonical |
| Environments.CanonicalFormIdempotent | env/Environment.go:239-241 | applying the canonical form twice is applying it once |
| Environments.LastHolder | env/Environment.go:64-68 | the index found holds the key and no later source does; none means no source holds it |
| Environments.FirstHolder | env/Environment.go:123-125 | the first source in a list that holds the key |
| Environments.LastHolderIsFirstWins | env/Environment.go:64-68 | searching from the last source equals taking the first holder of `PropertySources()` |
| Environments.LookupRaw | env/Environment.go:56-71 | params, then environment variables by exact key, then by canonical key, then the sources from last to first; empty when none holds the key |
| Environments.AddPropertySource | env/Environment.go:247-250 | appended last, so first in `PropertySources()`; nothing else changes |
| Environments.LaterSourcesWin | env/Environment.go:64-68 | when a later-registered source has the key, the lookup reads that source or a still later one, never an earlier one |
| Environments.LastAddedWins | env/Environment.go:247-250 | a source added last decides a key that params and variables lack |
| Environments.ThirdLoadedWins | env/Env_test.go:24-27 | of three sources holding `key`, the third one's `value3` is read |
| Environments.ResolveRequiredPlaceholders | env/Environment.go:73-75 | the receiver's processor runs with the current instance's lookup; the empty text stays empty, and a string result is a fixed point of the placeholder pass |
| Environments.Property | env/Environment.go:51-54 | a missing key fails "No value present for key"; a found raw text of the receiver is resolved against the current instance and printed with `Sprint` |
| Environments.NestedPlaceholderReadsInstance | env/ExprProcessor.go:50-53 | a raw text `${x}` of the receiver resolves to the current instance's plain value of `x`, whatever the receiver holds for `x` |
| Environments.PropertyOfPlainValue | env/Environment.go:51-54 | a raw value with no placeholders is returned as is |
| Environments.PlaceholderOfExpressionValue | env/Env_test.go:24-27 | `${int}` with `int=#{123}` resolves to the integer |
| Environments.MatchesProfiles | env/Environment.go:82-115 | with no profiles the result is true; otherwise the profiles are tested through the rewrite |
| Environments.MatchesActiveProfile | env/Environment.go:82-115 | `p` matches exactly when `p` is active, `!p` exactly when it is not |
| Profiles.ResolveToken | env/Environment.go:88-108 | a word becomes true exactly when it is active; `&` becomes `&&`, `|` becomes `||` |
| Profiles.MatcherProcessor | env/Environment.go:86-108 | the word-or-sign pattern with `ResolveToken` as its resolver |
| Profiles.PassIsRewrite | env/Environment.go:86-110 | one pass of the matcher gives the token-by-token rewrite of the profile text |
| Profiles.WholeHitIsRewrite | env/Environment.go:86-110 | a profile that is a single token also gives its rewrite |
| Profiles.Leading | env/Environment.go:110 | a recognised leading token is spelled at the start of the text |
| Profiles.TokenizeTokensText | env/Environment.go:110 | tokenising the printed tokens gives the tokens back |
| Profiles.ParseUnary | env/Environment.go:110 | a parse consumes at least one token |
| Profiles.ParseAnd | env/Environment.go:110 | a parse consumes at least one token |
| Profiles.ParseOr | env/Environment.go:110 | a parse consumes at least one token |
| Profiles.EvaluateBool | env/Environment.go:110 | a value is produced only for text that tokenises and parses |
| Profiles.ParseRender | env/Environment.go:110 | parsing a rendered expression gives its value and leaves the rest |
| Profiles.EvaluateRendered | env/Environment.go:110 | evaluating a fully parenthesised expression's text gives its boolean value |
| Profiles.PrecedenceExample | env/Environment.go:110 | `&&` binds tighter than `||`, and `!` tighter than `&&` |
| Profiles.AnyMatchesIsFirstHit | env/Environment.go:109-114 | true exactly when some profile matches with every earlier one missing; false exactly when all miss |
| Profiles.MatchesProfiles | env/Environment.go:82-85 | with no profiles the result is true; otherwise the OR over the profiles |
| Profiles.MatchesProfileIsRewrite | env/Environment.go:109-110 | each profile is evaluated as its rewritten text |
| Profiles.NameMatches | env/Environment.go:93-99 | a profile name matches exactly when it is active |
| Profiles.NegatedNameMatches | env/Environment.go:100-110 | `!name` matches exactly when the name is not active |
| Strings.ToUpper | env/Environment.go:240 | each character upper-cased |
| Strings.IndexOf | env/Environment.go:167-169 | the first position of the character, or the length |
| Strings.Split | env/Environment.go:167-169 | at least one part, and no part holds the separator |
| Strings.JoinSplit | env/env.go:69 | joining the parts with the separator gives the text back |
| Strings.DigitsValueOfNatText | env/RandomValuePropertySource.go:63 | a number's decimal text reads back as the number |
| Arguments.KeyRun | env/Environment.go:130 | the maximal run of `[^=\s]` from `i` |
| Arguments.SpaceRun | env/Environment.go:143 | the maximal run of spaces from `i` |
| Arguments.FirstAssign | env/Environment.go:130 | the first `=` that ends a key run, or none |
| Arguments.EntryPairs | env/Environment.go:128-138 | every key is a non-empty `[^=\s]+` run and no value crosses a line |
| Arguments.FirstArg | env/Environment.go:143 | the first dash that starts an argument, or none |
| Arguments.KeyStart | env/Environment.go:143 | a key starts after one or two dashes |
| Arguments.ArgPairs | env/Environment.go:141-151 | every key is a non-empty `[^=\s]+` run and no value crosses a line |
| Arguments.SetAll | env/Environment.go:134-147 | setting every pair keeps the source's name |
| Arguments.Latest | env/Environment.go:134-147 | absent exactly when no pair has the key; otherwise the value of the last pair with it |
| Arguments.SetAllIsLatest | env/Environment.go:134-147 | after setting all pairs, a key reads as its latest pair, or as before if none |
| Arguments.LoadEnvironmentVariables | env/Environment.go:128-138 | named "Environment variables"; holds exactly the keys of some `KEY=value` entry, each with its last value |
| Arguments.LoadApplicationParameters | env/Environment.go:141-151 | named "Application parameters"; holds exactly the keys of some `--key=value` argument, each with its last value |
| Arguments.EntryOfAssignment | env/Environment.go:130 | `key=value` gives the pair `(key, value)` |
| Arguments.ArgOfDoubleDash | env/Environment.go:143 | `--key=value` gives `(key, value)` |
| Arguments.ArgOfSingleDash | env/Environment.go:143 | `-key=value` gives `(key, value)` |
| Arguments.ArgOfFlag | env/Environment.go:143 | `--key` gives `(key, "")` |
| Arguments.ArgWithoutDash | env/Environment.go:143 | an argument without a dash gives nothing |
| Arguments.ParameterOfArgument | env/Environment.go:141-151 | `--key=value` on the command line reads as `value` |
| Arguments.VariableOfEntry | env/Environment.go:128-138 | `key=value` in the environment reads as `value` |
| ConfigLocations.Get | env/Environment.go:157-163 | a Go map read: the entry, or `""` |
| ConfigLocations.FirstOfThree | lang/Lang.go:10-18 | `FirstNonEmpty` of three is the first non-empty one |
| ConfigLocations.RequestedProfiles | env/Environment.go:157 | the parameter `profiles.active`, else `PROFILES_ACTIVE`, else the bootstrap text |
| ConfigLocations.ActiveProfilesOf | env/Environment.go:157-158 | `default` first, then the comma-split requested profiles; just `default` exactly when none are requested |
| ConfigLocations.ConfigName | env/Environment.go:159 | `config.name`, else `CONFIG_NAME`, else `application` |
| ConfigLocations.ParamOrVariable | env/Environment.go:161-163 | a location setting is the parameter when that is non-empty, else the environment variable (`config.additional-location` / `CONFIG_ADDITIONALLOCATION`, `config.location` / `CONFIG_LOCATION`) |
| ConfigLocations.ResolvedConfigLocation | env/Environment.go:160-165 | the defaults `./,./config/` plus any additional location, or the additional then the explicit location when one is given |
| ConfigLocations.HintMatches | env/Environment.go:21 | every match of `location[.ext]` is well placed in the text |
| ConfigLocations.HintMatchesArePlaced | env/Environment.go:21 | the matches are ordered and do not overlap |
| ConfigLocations.LastHintInIsLast | env/Environment.go:21 | the hint found is the last one before the bound, and none found means there is none |
| ConfigLocations.SplitHint | env/Environment.go:179-183 | no match leaves the location and no hint; otherwise the last match's location and hint |
| ConfigLocations.SplitOfHinted | env/Environment.go:179-183 | `location[.ext]` splits into the location and `.ext` |
| ConfigLocations.SplitOfUnhinted | env/Environment.go:179-183 | a location without `[` has no hint |
| ConfigLocations.SingleLineAgrees | env/Environment.go:179-183 | on one line the loop as written gives the intended split |
| ConfigLocations.SecondMatchPanics | env/Environment.go:179-183 | a second match always panics in the loop as written |
| ConfigLocations.TwoHintedLines | env/Environment.go:179-183 | two hinted lines: the intended split takes the second, the loop as written panics |
| ConfigLocations.Ext | env/Environment.go:192 | `filepath.Ext`: empty, or a `.`-led suffix with no other `.` or `/`; empty only when every `.` is followed by a `/` |
| ConfigLocations.FileName | env/Environment.go:186-190 | `name+ext` for `default`, else `name-profile+ext` |
| ConfigLocations.Candidates | env/Environment.go:176-195 | a directory tries `.yml`, `.yaml`, `.properties` in order; a hint loads the location; otherwise the profile goes before the extension |
| ConfigLocations.ProfileBeforeExtension | env/Environment.go:192-193 | the profile candidate keeps the location's extension |
| ConfigLocations.ExtOfSuffix | env/Environment.go:192 | a path ending in an extension has that extension |
| Files.Clean | util/files/files.go:21 | a cleaned path is never empty |
| Files.LastSlash | util/files/files.go:21 | the position after the last `/`, or 0 |
| Files.Dir | util/files/files.go:21 | never empty |
| Files.Join2 | util/files/files.go:21 | the cleaned join of two paths, skipping empty ones |
| Files.RelativePath | util/files/files.go:17-22 | `/` and `~/` paths are returned as is; otherwise the cleaned join with the directory of `path1`, or `path1` itself when it ends in `/` |
| Files.RelativePathIsClean | util/files/files.go:21 | a relative result is already clean |
| Files.CleanIsIdempotent | util/files/files.go:21 | cleaning a cleaned path changes nothing |
| Files.Sibling | util/files/files.go:21 | a name relative to `a/f` is `a/name` |
| Files.ClimbOut | util/files/files.go:21 | `../c` relative to `/a/b/` is `/a/c` |
| Files.AbsoluteExample | util/files/files.go:18-20 | `/etc/x.yaml` and `~/x.yaml` are returned unchanged |
| Loading.SourceExt | env/Environment.go:203 | the hint when given, else the path's extension |
| Loading.ParseSource | env/Environment.go:208-215 | `.properties` and `.yaml`/`.yml` parse to a source named by the path; any other extension panics "not supported" |
| Loading.MergeProfiles | env/Environment.go:217-219 | a file's `profiles.active` is appended only when the list is exactly `default` |
| Loading.Register | env/Environment.go:216-219 | the source is appended last and the profiles merged |
| Loading.LoadFile | env/Environment.go:197-225 | a missing path changes nothing; no extension panics; sources and profiles only grow, and profiles change only from `default` |
| Loading.LoadContent | env/Environment.go:208-224 | a parse failure is the result; otherwise the sources grow |
| Loading.LoadImport | env/Environment.go:227-237 | a directory import panics naming the importing file; every import spends fuel |
| Loading.LoadCandidates | env/Environment.go:185-194 | loading the candidate files only grows the state |
| Loading.LoadGroups | env/Environment.go:169-171 | loading each `;` group only grows the state |
| Loading.LoadProfilesFrom | env/Environment.go:168-172 | loading a location for each profile, including profiles added meanwhile, only grows the state |
| Loading.LoadLocations | env/Environment.go:167-173 | loading each location only grows the state |
| Loading.LoadApplicationConfiguration | env/Environment.go:156-174 | the result grows from the starting profiles and no sources |
| Loading.Assemble | env/Environment.go:37-49 | the loaded sources then the random-value and Base64 sources, so Base64 is searched first |
| Loading.NewEnvironment | env/Environment.go:37-49 | a loading failure is the result; otherwise the assembled environment with a strict processor |
| Loading.LoadPlainFile | env/Environment.go:197-225 | a `.properties` file that neither imports nor sets profiles adds exactly one source |
| Loading.LoadDirectory | env/Environment.go:205-207 | reading a directory panics "Cannot read from path" with the read error as cause |
| Loading.LoadLocationsOfNothing | env/Environment.go:167-173 | without files nothing is loaded |
| Loading.NewEnvironmentOfNothing | env/Environment.go:37-49 | without files the environment holds its starting profiles and only the random-value and Base64 sources |
| Loading.LoadPlainCandidate | env/Environment.go:197-219 | a plain candidate file adds its one parsed source, or nothing when it is missing |
| Loading.LoadCandidatesOfPlain | env/Environment.go:185-194 | plain candidates register their sources in the `.yml`, `.yaml`, `.properties` order |
| Loading.LoadGroupsOfPlain | env/Environment.go:169-171 | plain `;` groups register their sources group by group |
| Loading.LoadProfilesOfPlain | env/Environment.go:168-172 | over plain files a location registers its sources profile by profile, in the order of the active list |
| Loading.LoadLocationsOfPlain | env/Environment.go:167-173 | over plain files the locations register their sources location by location |
| Loading.LoadApplicationConfigurationOfPlain | env/Environment.go:153-173 | over plain files the whole search registers its sources per location, then per profile, so later profiles' files come later and win |
| Loading.ProfileFilesComeLast | env/Environment.go:153-172 | with active profiles `default, p`, the `p` files are registered after the default files |
| Loading.ProfilesAddedMeanwhileAreSearched | env/Environment.go:168-172 | when the default files set `profiles.active` to `p`, the loop re-reads the list's length and also loads the `p` files |
| Loading.SelfImportDiverges | env/Environment.go:220-236 | a file that imports itself never finishes, whatever the fuel |
| Env.Derived | env/env.go:78-82 | holds exactly the sources whose `Properties()` is nil, and is no longer than its input |
| Env.DerivedAppend | env/env.go:78-82 | the filter distributes over concatenation |
| Env.DerivedOfLoaded | env/env.go:78-82 | after enumerable sources, only the derived tail is kept |
| Env.Carry | env/env.go:77-83 | the previous derived sources are appended; nothing else changes |
| Env.SetActiveProfiles | env/env.go:68-84 | no change when the profiles are already `default` plus these; otherwise a rebuild that keeps the old derived sources |
| Env.SetActiveProfilesTwice | env/env.go:68-71 | a second request for the same profiles changes nothing |
| Env.SetActiveProfilesEmptyRebuilds | env/env.go:68-84 | an empty request always rebuilds a `default`-only environment |
| Env.RebuildKeepsDefaults | env/env.go:73-83 | a rebuild keeps exactly the old random-value and Base64 sources |
| Env.Instance | env/env.go:86-91 | the existing environment, or a new one with no bootstrap profiles |
| Env.FirstInstanceOfNothing | env/env.go:86-91 | without files the first instance has only the random-value and Base64 sources |
| Env.ConvertToString | env/env.go:98-106 | a string is returned as is; any other value is `Sprint`ed |
| Env.ConvertToStringIsSprint | env/env.go:100-106 | both branches agree with `Sprint` |
| Env.Value | env/env.go:20-22 | the instance's resolution of the expression, as a string; the instance is returned with it |
| Env.Decapitalized | env/env.go:30-31 | the first letter lower-cased, the rest unchanged |
| Env.FieldRaw | env/env.go:29-33 | `prefix.Field`, and when absent and upper-case, `prefix.field` |
| Env.FieldValue | env/env.go:29-37 | a field with neither key is skipped; otherwise its raw value resolved |
| Env.FieldFromDecapitalizedParam | env/env.go:29-33 | a command-line `prefix.field` serves the field `Field` |

## Left out

- I/O is a parameter, not modelled:
  - `os.Environ` and `os.Args[1:]` are the `environ` and `args` sequences;
  - the file system is a map from path to file or directory, and `files.Exists` is membership in it;
  - the only read error modelled is a directory's;
  - `slog` logging is left out;
  - `filepath.ToSlash` is the identity.
- The `.properties` and YAML parsers are parameters. The YAML tree is a datatype, so only `flattenYaml` is modelled.
- The Go regexp engine is abstract (`Regexp.findAll`), apart from the two concrete scanners. The placeholder pattern of env/ExprProcessor.go:25 and the `(?ms)` flags are not interpreted.
- The expression backend is an `Eval` parameter, applied as `eval(text)(context)`. `MatchesProfiles` evaluates its rewritten text with a small `true`/`false`/`!`/`&&`/`||`/parentheses evaluator instead. Failure there reads "Cannot evaluate expression #{...}".
- crypto/rand is a byte supply. One supply serves each resolution, and a short supply fails "Cannot generate random value".
- `RandomValues.RandInt` follows the rejection sampling of `crypto/rand.Int` over the byte supply. The Go standard library is not part of this model.
- env/RsaPropertySource.go, util/str/str.go and everything under io/ are not part of this model.
- util/files/files.go's `Exists` and `ResolveUserHomeDir` read the OS and are not part of this model.
- Reflection is not modelled: field setting in `ConfigurationProperties` and the non-string branch of `convertAsType`. Only the key fallback and the string conversion are modelled.
- `ActiveProfiles` and `MatchesProfiles` in env/env.go only delegate to the instance. They are `Environments.MatchesProfiles` on the current environment.
- The global `environment` is an explicit `Option<Environment>`.
- `NewBase64PropertySource` stores `GetEnvironment()`, but its methods read the package global `environment`. In the model the Base64 source reads the environment `LookupRaw` is given: the instance, through `LookupOf`, when a placeholder is resolved; the receiver itself on the raw read of `Environments.Property`. The two agree whenever the environment being resolved is the global one.
- `Text.Loop`: the fixed-point loop of util/text/PatternProcessor.go:32-59 has no bound. The model's `fuel` turns non-termination into `DidNotConverge`.
- `Loading.LoadImport`: the import chain has no bound either. A file that imports itself recurses until the Go stack overflows; the model spends fuel per import level.
- `Loading.LoadImport` splits the `[.ext]` hint of an import with the corrected `ConfigLocations.SplitHint`. On an import text with two hinted lines, env/Environment.go:228-233 panics with a slice out of range; the model loads it instead. The two agree on every single-line import (`ConfigLocations.SingleLineAgrees`); see Findings.
- `ConfigLocations.Candidates` splits the hint with the corrected `ConfigLocations.SplitHint` too. On a location with two hinted lines, env/Environment.go:179-183 panics (`ConfigLocations.TwoHintedLines`); the model yields the corrected candidates instead. The two agree on every single-line location.
- `Base64.Property`: a failed decode panics with the cause "illegal base64 data". Go's `CorruptInputError` adds " at input byte N", where N is the position at which the standard library's decoder gave up. The decoder's scanning position is not part of this model, so the offset is not modelled.
- `Env.Decapitalized`: `unicode.IsUpper` and `strings.ToLower` are modelled for ASCII letters only.
- `Strings.ToUpper`: `strings.ToUpper` is modelled for ASCII letters only.
- `Env.SetActiveProfiles`: an empty request on a `default`-only environment compares `"default,"` with `"default"` and so always rebuilds. This is modelled as written (`Env.SetActiveProfilesEmptyRebuilds`).
- `Values.Sprint` covers the value kinds the model produces. Durations follow Go's `Duration.String`; floating point is not modelled.
- The test of env/Base64PropertySource_test.go uses a lowercase `base64:` prefix. The code checks `Base64:`, and the model follows the code.

## Findings

| source | as written | input that shows it | evidently intended | confidence | as-written member | corrected member |
|---|---|---|---|---|---|---|
| env/Environment.go:179-183 | each match of `location[.ext]` reslices the already shortened `location` with indices found in the original text | the location `a[.x]` newline `b[.y]`: the second match's end lies past the shortened `a`, so `regex.MatchOf` slices out of range and panics | take the last match's location and hint, as for a single line | not executed | ConfigLocations.TwoHintedLines | ConfigLocations.SplitHint |

The same loop appears in `loadImport` at env/Environment.go:228-233. Both
places use `ConfigLocations.SplitHint`. `ConfigLocations.SingleLineAgrees`
proves that the two definitions coincide on every single-line location.
