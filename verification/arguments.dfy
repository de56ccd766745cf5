/** env/Environment.go, `loadEnvironmentVariables` and
    `loadApplicationParameters`: the `KEY=value` entries of the process
    environment and the `--key=value` command-line arguments, each scanned
    with a fixed regular expression whose matches are stored in a map
    source in order, so a later match of a key replaces an earlier one.

    The two patterns are simple enough that Go's leftmost-first matching is
    written out here rather than left abstract:

      `(?P<key>[^=\s]+)=(?P<value>.*)`
      `--?(?P<key>[^=\s]+)\s*=?(?P<value>.*)`

    `.` does not match a line break, so a value runs to the end of its
    line; a text holding several lines can yield several matches. */
module Arguments {
  import opened Strings
  import opened Wrappers
  import MapSources

  /** One match: the `key` and `value` groups. */
  datatype KeyValue = KeyValue(key: string, value: string)

  /** `[^=\s]`: a character a key may hold. */
  predicate IsKeyChar(c: char) {
    c != '=' && !IsSpace(c)
  }

  predicate AllKeyChars(s: string) {
    forall i :: 0 <= i < |s| ==> IsKeyChar(s[i])
  }

  /** The end of the longest run of key characters starting at `i`. */
  function KeyRun(s: string, i: nat): (e: nat)
    requires i <= |s|
    ensures i <= e <= |s|
    ensures forall j :: i <= j < e ==> IsKeyChar(s[j])
    ensures e == |s| || !IsKeyChar(s[e])
    decreases |s| - i
  {
    if i == |s| || !IsKeyChar(s[i]) then i else KeyRun(s, i + 1)
  }

  /** The start of the longest run of key characters ending at `j`. */
  function RunStart(s: string, j: nat): (k: nat)
    requires j <= |s|
    ensures k <= j
    ensures forall i :: k <= i < j ==> IsKeyChar(s[i])
    ensures k == 0 || !IsKeyChar(s[k - 1])
  {
    if j == 0 || !IsKeyChar(s[j - 1]) then j else RunStart(s, j - 1)
  }

  /** The end of the longest run of `\s` characters starting at `i`. */
  function SpaceRun(s: string, i: nat): (e: nat)
    requires i <= |s|
    ensures i <= e <= |s|
    ensures forall j :: i <= j < e ==> IsSpace(s[j])
    ensures e == |s| || !IsSpace(s[e])
    decreases |s| - i
  {
    if i == |s| || !IsSpace(s[i]) then i else SpaceRun(s, i + 1)
  }

  lemma KeyOfRun(s: string, i: nat, e: nat)
    requires i < e <= |s|
    requires forall j :: i <= j < e ==> IsKeyChar(s[j])
    ensures s[i..e] != "" && AllKeyChars(s[i..e])
  {
    assert forall j :: 0 <= j < e - i ==> s[i..e][j] == s[i + j];
  }

  lemma ValueOfLine(s: string, i: nat, e: nat)
    requires i <= |s| && e == LineEnd(s, i)
    ensures '\n' !in s[i..e]
  {
    LineEndNoBreak(s, i);
    assert forall j :: 0 <= j < e - i ==> s[i..e][j] == s[i + j];
  }

  // ---------------------------------------------------------------------
  // Environment entries
  // ---------------------------------------------------------------------

  /** An `=` at `e` that ends a key: a key character stands right before
      it. A match of the entry pattern ends its key at such an `=`, and
      the leftmost match uses the first one. */
  predicate IsAssign(s: string, e: nat) {
    0 < e < |s| && s[e] == '=' && IsKeyChar(s[e - 1])
  }

  function FirstAssign(s: string, e: nat): (r: Option<nat>)
    requires e <= |s|
    ensures r.None? ==> forall j :: e <= j < |s| ==> !IsAssign(s, j)
    ensures r.Some? ==> e <= r.value < |s| && IsAssign(s, r.value)
                        && forall j :: e <= j < r.value ==> !IsAssign(s, j)
    decreases |s| - e
  {
    if e == |s| then None
    else if IsAssign(s, e) then Some(e)
    else FirstAssign(s, e + 1)
  }

  /** The matches of `(?P<key>[^=\s]+)=(?P<value>.*)` in `s`, in order.
      The leftmost match starts at the run of key characters ending at
      the first `=` that follows a key character (a start any earlier
      reaches a space or the end first); the value runs to the end of the
      line, and the scan resumes there. */
  function EntryPairs(s: string): (r: seq<KeyValue>)
    ensures forall i :: 0 <= i < |r| ==> r[i].key != "" && AllKeyChars(r[i].key)
    ensures forall i :: 0 <= i < |r| ==> '\n' !in r[i].value
    decreases |s|
  {
    match FirstAssign(s, 0)
    case None => []
    case Some(e) =>
      var k := RunStart(s, e);
      var end := LineEnd(s, e + 1);
      KeyOfRun(s, k, e);
      ValueOfLine(s, e + 1, end);
      [KeyValue(s[k..e], s[e + 1..end])] + EntryPairs(s[end..])
  }

  // ---------------------------------------------------------------------
  // Command-line arguments
  // ---------------------------------------------------------------------

  /** A match of the argument pattern can start at `i`: a dash followed
      by a key character (a second dash is itself a key character). */
  predicate IsArgStart(s: string, i: nat) {
    i + 1 < |s| && s[i] == '-' && IsKeyChar(s[i + 1])
  }

  function FirstArg(s: string, i: nat): (r: Option<nat>)
    requires i <= |s|
    ensures r.None? ==> forall j :: i <= j < |s| ==> !IsArgStart(s, j)
    ensures r.Some? ==> i <= r.value && IsArgStart(s, r.value)
                        && forall j :: i <= j < r.value ==> !IsArgStart(s, j)
    decreases |s| - i
  {
    if i == |s| then None
    else if IsArgStart(s, i) then Some(i)
    else FirstArg(s, i + 1)
  }

  /** Where the key of a match starting at `i` begins: `-?` takes a second
      dash only when a key character follows it, since the key needs one. */
  function KeyStart(s: string, i: nat): (k: nat)
    requires IsArgStart(s, i)
    ensures k == i + 1 || k == i + 2
    ensures k < |s| && IsKeyChar(s[k])
  {
    if s[i + 1] == '-' && i + 2 < |s| && IsKeyChar(s[i + 2]) then i + 2 else i + 1
  }

  /** The matches of `--?(?P<key>[^=\s]+)\s*=?(?P<value>.*)` in `s`, in
      order. Everything after the key is optional, so the first dash that
      a key character follows starts the leftmost match, and each greedy
      part takes all it can: the key its whole run, `\s*` every space, `=?`
      the `=` if one is there, the value the rest of the line. */
  function ArgPairs(s: string): (r: seq<KeyValue>)
    ensures forall i :: 0 <= i < |r| ==> r[i].key != "" && AllKeyChars(r[i].key)
    ensures forall i :: 0 <= i < |r| ==> '\n' !in r[i].value
    decreases |s|
  {
    match FirstArg(s, 0)
    case None => []
    case Some(i) =>
      var ks := KeyStart(s, i);
      var ke := KeyRun(s, ks);
      var sp := SpaceRun(s, ke);
      var vs := if sp < |s| && s[sp] == '=' then sp + 1 else sp;
      var ve := LineEnd(s, vs);
      KeyOfRun(s, ks, ke);
      ValueOfLine(s, vs, ve);
      [KeyValue(s[ks..ke], s[vs..ve])] + ArgPairs(s[ve..])
  }

  // ---------------------------------------------------------------------
  // The map sources
  // ---------------------------------------------------------------------

  /** `SetProperty` for every match, in order. */
  function SetAll(source: MapSources.MapPropertySource, pairs: seq<KeyValue>): (r: MapSources.MapPropertySource)
    ensures MapSources.Name(r) == MapSources.Name(source)
    decreases |pairs|
  {
    if pairs == [] then source
    else MapSources.SetProperty(SetAll(source, pairs[..|pairs| - 1]), pairs[|pairs| - 1].key, pairs[|pairs| - 1].value)
  }

  /** A last match before the final pair stays the last when the final
      pair has another key. */
  lemma LatestOfEarlier(pairs: seq<KeyValue>, key: string, v: string)
    requires pairs != [] && pairs[|pairs| - 1].key != key
    requires var init := pairs[..|pairs| - 1];
             exists i :: 0 <= i < |init| && init[i] == KeyValue(key, v) && forall j :: i < j < |init| ==> init[j].key != key
    ensures exists i :: 0 <= i < |pairs| && pairs[i] == KeyValue(key, v) && forall j :: i < j < |pairs| ==> pairs[j].key != key
  {
    var init := pairs[..|pairs| - 1];
    var i :| 0 <= i < |init| && init[i] == KeyValue(key, v) && forall j :: i < j < |init| ==> init[j].key != key;
    assert pairs[i] == KeyValue(key, v);
    assert forall j :: i < j < |pairs| ==> pairs[j].key != key by {
      forall j | i < j < |pairs| ensures pairs[j].key != key {
        if j < |init| { assert init[j] == pairs[j]; }
      }
    }
  }

  /** The value of the last match of `key`, if any: the reference reading
      of "a later match replaces an earlier one". */
  function Latest(pairs: seq<KeyValue>, key: string): (r: Option<string>)
    ensures r.None? <==> forall i :: 0 <= i < |pairs| ==> pairs[i].key != key
    ensures r.Some? ==> exists i :: 0 <= i < |pairs| && pairs[i] == KeyValue(key, r.value)
                                    && forall j :: i < j < |pairs| ==> pairs[j].key != key
    decreases |pairs|
  {
    if pairs == [] then None
    else if pairs[|pairs| - 1].key == key then
      assert pairs[|pairs| - 1] == KeyValue(key, pairs[|pairs| - 1].value);
      Some(pairs[|pairs| - 1].value)
    else
      var init := pairs[..|pairs| - 1];
      var r := Latest(init, key);
      assert forall i :: 0 <= i < |init| ==> init[i] == pairs[i];
      if r.Some? then
        LatestOfEarlier(pairs, key, r.value);
        r
      else r
  }

  /** After `SetAll`, a key holds the value of its last match, and a key
      no match names keeps what it had. */
  lemma {:induction false} SetAllIsLatest(source: MapSources.MapPropertySource, pairs: seq<KeyValue>, key: string)
    ensures Latest(pairs, key).Some? ==> MapSources.Property(SetAll(source, pairs), key) == Success(Latest(pairs, key).value)
    ensures Latest(pairs, key).None? ==> MapSources.Property(SetAll(source, pairs), key) == MapSources.Property(source, key)
    decreases |pairs|
  {
    if pairs != [] {
      SetAllIsLatest(source, pairs[..|pairs| - 1], key);
    }
  }

  /** The matches of every entry, entry by entry. */
  function EnvironPairs(environ: seq<string>): seq<KeyValue>
    decreases |environ|
  {
    if environ == [] then [] else EnvironPairs(environ[..|environ| - 1]) + EntryPairs(environ[|environ| - 1])
  }

  function ParamPairs(args: seq<string>): seq<KeyValue>
    decreases |args|
  {
    if args == [] then [] else ParamPairs(args[..|args| - 1]) + ArgPairs(args[|args| - 1])
  }

  /** `loadEnvironmentVariables`, with `os.Environ()` as `environ`: the
      source "Environment variables", where each key holds the value of its
      last match. */
  function LoadEnvironmentVariables(environ: seq<string>): (r: MapSources.MapPropertySource)
    ensures MapSources.Name(r) == "Environment variables"
    ensures forall key :: Latest(EnvironPairs(environ), key).Some? <==> MapSources.HasProperty(r, key)
    ensures forall key :: Latest(EnvironPairs(environ), key).Some? ==>
              MapSources.Property(r, key) == Success(Latest(EnvironPairs(environ), key).value)
  {
    var r := SetAll(MapSources.MapPropertySourceOf("Environment variables"), EnvironPairs(environ));
    forall key
      ensures Latest(EnvironPairs(environ), key).Some? <==> MapSources.HasProperty(r, key)
      ensures Latest(EnvironPairs(environ), key).Some? ==> MapSources.Property(r, key) == Success(Latest(EnvironPairs(environ), key).value)
    {
      SetAllIsLatest(MapSources.MapPropertySourceOf("Environment variables"), EnvironPairs(environ), key);
      assert !MapSources.HasProperty(MapSources.MapPropertySourceOf("Environment variables"), key);
    }
    r
  }

  /** `loadApplicationParameters`, with `os.Args[1:]` as `args`: the
      source "Application parameters", where each key holds the value of
      its last match. */
  function LoadApplicationParameters(args: seq<string>): (r: MapSources.MapPropertySource)
    ensures MapSources.Name(r) == "Application parameters"
    ensures forall key :: Latest(ParamPairs(args), key).Some? <==> MapSources.HasProperty(r, key)
    ensures forall key :: Latest(ParamPairs(args), key).Some? ==>
              MapSources.Property(r, key) == Success(Latest(ParamPairs(args), key).value)
  {
    var r := SetAll(MapSources.MapPropertySourceOf("Application parameters"), ParamPairs(args));
    forall key
      ensures Latest(ParamPairs(args), key).Some? <==> MapSources.HasProperty(r, key)
      ensures Latest(ParamPairs(args), key).Some? ==> MapSources.Property(r, key) == Success(Latest(ParamPairs(args), key).value)
    {
      SetAllIsLatest(MapSources.MapPropertySourceOf("Application parameters"), ParamPairs(args), key);
      assert !MapSources.HasProperty(MapSources.MapPropertySourceOf("Application parameters"), key);
    }
    r
  }

  // ---------------------------------------------------------------------
  // Round trips
  // ---------------------------------------------------------------------

  /** A value on one line reaches the end of the text. */
  lemma LineEndOfValue(s: string, i: nat, value: string)
    requires i <= |s| && s[i..] == value && '\n' !in value
    ensures LineEnd(s, i) == |s|
  {
    forall j | i <= j < |s| ensures s[j] != '\n' {
      assert s[j] == value[j - i];
      assert value[j - i] in value;
    }
    LineEndOf(s, i, |s|);
  }

  /** A text whose only match covers all of it. */
  lemma EntryPairsOfOne(s: string, e: nat)
    requires FirstAssign(s, 0) == Some(e)
    requires RunStart(s, e) == 0 && LineEnd(s, e + 1) == |s|
    ensures EntryPairs(s) == [KeyValue(s[..e], s[e + 1..])]
  {
    assert FirstAssign(s[|s|..], 0) == None;
    assert EntryPairs(s[|s|..]) == [];
    assert s[0..e] == s[..e] && s[e + 1..|s|] == s[e + 1..];
    assert EntryPairs(s) == [KeyValue(s[0..e], s[e + 1..|s|])] + EntryPairs(s[|s|..]);
  }

  /** `KEY=value` yields exactly the pair (`KEY`, `value`): the value may
      itself hold `=` and spaces, as long as it stays on one line. */
  lemma EntryOfAssignment(key: string, value: string)
    requires key != "" && AllKeyChars(key) && '\n' !in value
    ensures EntryPairs(key + "=" + value) == [KeyValue(key, value)]
  {
    var s := key + "=" + value;
    var e := |key|;
    assert s[..e] == key && s[e] == '=' && s[e + 1..] == value;
    assert forall j :: 0 <= j < e ==> s[j] == key[j];
    assert IsAssign(s, e);
    assert FirstAssign(s, 0) == Some(e);
    assert RunStart(s, e) == 0;
    LineEndOfValue(s, e + 1, value);
    EntryPairsOfOne(s, e);
  }

  /** A text whose only argument match covers all of it, with its key
      from `ks` to `ke` and its value from `vs` on. */
  lemma ArgPairsOfOne(s: string, i: nat, ke: nat, vs: nat)
    requires FirstArg(s, 0) == Some(i)
    requires KeyRun(s, KeyStart(s, i)) == ke
    requires vs == (if SpaceRun(s, ke) < |s| && s[SpaceRun(s, ke)] == '=' then SpaceRun(s, ke) + 1 else SpaceRun(s, ke))
    requires LineEnd(s, vs) == |s|
    ensures ArgPairs(s) == [KeyValue(s[KeyStart(s, i)..ke], s[vs..])]
  {
    assert FirstArg(s[|s|..], 0) == None;
    assert ArgPairs(s[|s|..]) == [];
    assert s[vs..|s|] == s[vs..];
    assert ArgPairs(s) == [KeyValue(s[KeyStart(s, i)..ke], s[vs..|s|])] + ArgPairs(s[|s|..]);
  }

  /** The match of an argument whose key text starts at `KeyStart` and is
      followed right away by `=`. */
  lemma ArgOfKeyAt(s: string, i: nat, key: string, value: string)
    requires key != "" && AllKeyChars(key) && '\n' !in value
    requires IsArgStart(s, i) && FirstArg(s, 0) == Some(i)
    requires s == s[..KeyStart(s, i)] + key + "=" + value
    ensures ArgPairs(s) == [KeyValue(key, value)]
  {
    var ks := KeyStart(s, i);
    var ke := ks + |key|;
    assert forall j :: ks <= j < ke ==> s[j] == key[j - ks];
    assert s[ke] == '=';
    assert KeyRun(s, ks) == ke;
    assert SpaceRun(s, ke) == ke;
    assert s[ks..ke] == key && s[ke + 1..] == value;
    LineEndOfValue(s, ke + 1, value);
    ArgPairsOfOne(s, i, ke, ke + 1);
  }

  /** `--key=value` yields exactly (`key`, `value`), whatever `key` starts
      with. */
  lemma ArgOfDoubleDash(key: string, value: string)
    requires key != "" && AllKeyChars(key) && '\n' !in value
    ensures ArgPairs("--" + key + "=" + value) == [KeyValue(key, value)]
  {
    var s := "--" + key + "=" + value;
    assert s[2] == key[0];
    assert IsArgStart(s, 0);
    assert KeyStart(s, 0) == 2;
    assert s == s[..2] + key + "=" + value;
    ArgOfKeyAt(s, 0, key, value);
  }

  /** `-key=value` yields exactly (`key`, `value`) when `key` does not
      itself start with a dash. */
  lemma ArgOfSingleDash(key: string, value: string)
    requires key != "" && AllKeyChars(key) && '\n' !in value && key[0] != '-'
    ensures ArgPairs("-" + key + "=" + value) == [KeyValue(key, value)]
  {
    var s := "-" + key + "=" + value;
    assert s[1] == key[0];
    assert IsArgStart(s, 0);
    assert KeyStart(s, 0) == 1;
    assert s == s[..1] + key + "=" + value;
    ArgOfKeyAt(s, 0, key, value);
  }

  /** `--key` alone is a flag with the empty value: the `=value` part is
      optional. */
  lemma ArgOfFlag(key: string)
    requires key != "" && AllKeyChars(key)
    ensures ArgPairs("--" + key) == [KeyValue(key, "")]
  {
    var s := "--" + key;
    assert s[2] == key[0];
    assert IsArgStart(s, 0);
    assert KeyStart(s, 0) == 2;
    assert forall j :: 2 <= j < |s| ==> s[j] == key[j - 2];
    assert KeyRun(s, 2) == |s|;
    assert SpaceRun(s, |s|) == |s|;
    assert LineEnd(s, |s|) == |s|;
    assert s[2..|s|] == key;
    ArgPairsOfOne(s, 0, |s|, |s|);
  }

  /** A text without any dash yields no parameter. */
  lemma ArgWithoutDash(s: string)
    requires '-' !in s
    ensures ArgPairs(s) == []
  {
    assert FirstArg(s, 0) == None by {
      forall j | 0 <= j < |s| ensures !IsArgStart(s, j) {
        assert s[j] in s;
      }
    }
  }

  /** The command line `--key=value` sets `key` to `value` in the
      parameter source. */
  lemma ParameterOfArgument(key: string, value: string)
    requires key != "" && AllKeyChars(key) && '\n' !in value
    ensures MapSources.Property(LoadApplicationParameters(["--" + key + "=" + value]), key) == Success(value)
  {
    var args := ["--" + key + "=" + value];
    ArgOfDoubleDash(key, value);
    assert args[..0] == [];
    assert ParamPairs(args) == [KeyValue(key, value)];
    assert Latest(ParamPairs(args), key) == Some(value);
  }

  /** The process environment entry `KEY=value` sets `KEY` to `value` in
      the environment source. */
  lemma VariableOfEntry(key: string, value: string)
    requires key != "" && AllKeyChars(key) && '\n' !in value
    ensures MapSources.Property(LoadEnvironmentVariables([key + "=" + value]), key) == Success(value)
  {
    var environ := [key + "=" + value];
    EntryOfAssignment(key, value);
    assert environ[..0] == [];
    assert EnvironPairs(environ) == [KeyValue(key, value)];
    assert Latest(EnvironPairs(environ), key) == Some(value);
  }
}
