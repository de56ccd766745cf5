/** env/Environment.go, `loadApplicationConfiguration` and
    `loadConfiguration`: which profiles are active before any file is read,
    which locations are searched, how a `[.ext]` hint is split off a
    location, and which files a location stands for under a profile. */
module ConfigLocations {
  import opened Wrappers
  import opened Strings
  import Lang
  import Files

  /** Go's read of a `map[string]string`: the zero value `""` for a
      missing key. */
  function Get(m: map<string, string>, key: string): (r: string)
    ensures key in m ==> r == m[key]
    ensures key !in m ==> r == ""
  {
    if key in m then m[key] else ""
  }

  // ---------------------------------------------------------------------
  // Active profiles and locations
  // ---------------------------------------------------------------------

  lemma FirstOfTwo(a: string, b: string)
    ensures Lang.FirstNonEmpty("", [a, b]) == if a != "" then a else b
  {
    var values := [a, b];
    if a != "" {
      Lang.FirstNonEmptyPicksEarliest("", values, 0);
    } else if b != "" {
      Lang.FirstNonEmptyPicksEarliest("", values, 1);
    }
  }

  lemma FirstOfThree(a: string, b: string, c: string)
    ensures Lang.FirstNonEmpty("", [a, b, c]) == if a != "" then a else if b != "" then b else c
  {
    var values := [a, b, c];
    if a != "" {
      Lang.FirstNonEmptyPicksEarliest("", values, 0);
    } else if b != "" {
      Lang.FirstNonEmptyPicksEarliest("", values, 1);
    } else if c != "" {
      Lang.FirstNonEmptyPicksEarliest("", values, 2);
    }
  }

  /** The profile list before any file is read: the parameter
      `profiles.active`, else the variable `PROFILES_ACTIVE`, else the
      bootstrap argument, whichever is first non-empty. */
  function RequestedProfiles(params: map<string, string>, environ: map<string, string>, bootstrap: string): (r: string)
    ensures Get(params, "profiles.active") != "" ==> r == params["profiles.active"]
    ensures Get(params, "profiles.active") == "" && Get(environ, "PROFILES_ACTIVE") != "" ==> r == environ["PROFILES_ACTIVE"]
    ensures Get(params, "profiles.active") == "" && Get(environ, "PROFILES_ACTIVE") == "" ==> r == bootstrap
  {
    FirstOfThree(Get(params, "profiles.active"), Get(environ, "PROFILES_ACTIVE"), bootstrap);
    Lang.FirstNonEmpty("", [Get(params, "profiles.active"), Get(environ, "PROFILES_ACTIVE"), bootstrap])
  }

  /** The active profiles `loadApplicationConfiguration` starts from:
      `default`, followed by the comma-separated requested profiles when
      there are any. Joined with commas the list reads `default,` followed
      by the request, which is the text `SetActiveProfiles` compares. */
  function ActiveProfilesOf(params: map<string, string>, environ: map<string, string>, bootstrap: string): (r: seq<string>)
    ensures |r| >= 1 && r[0] == "default"
    ensures RequestedProfiles(params, environ, bootstrap) == "" <==> r == ["default"]
    ensures RequestedProfiles(params, environ, bootstrap) != "" ==>
              |r| >= 2 && Join(r, ",") == "default," + RequestedProfiles(params, environ, bootstrap)
  {
    var requested := RequestedProfiles(params, environ, bootstrap);
    if requested == "" then ["default"]
    else
      var parts := Split(requested, ',');
      JoinSplit(requested, ',');
      var r := ["default"] + parts;
      assert r[1..] == parts;
      r
  }

  /** The configuration base name: the parameter `config.name`, else the
      variable `CONFIG_NAME`, else `application`. */
  function ConfigName(params: map<string, string>, environ: map<string, string>): (r: string)
    ensures r != ""
    ensures Get(params, "config.name") != "" ==> r == params["config.name"]
    ensures Get(params, "config.name") == "" && Get(environ, "CONFIG_NAME") != "" ==> r == environ["CONFIG_NAME"]
    ensures Get(params, "config.name") == "" && Get(environ, "CONFIG_NAME") == "" ==> r == "application"
  {
    FirstOfThree(Get(params, "config.name"), Get(environ, "CONFIG_NAME"), "application");
    Lang.FirstNonEmpty("", [Get(params, "config.name"), Get(environ, "CONFIG_NAME"), "application"])
  }

  const DefaultLocation: string := "./,./config/"

  /** A setting read from the parameter `param`, else from the environment
      variable `variable`; empty when neither is set. */
  function ParamOrVariable(params: map<string, string>, environ: map<string, string>,
                           param: string, variable: string): (r: string)
    ensures Get(params, param) != "" ==> r == params[param]
    ensures Get(params, param) == "" ==> r == Get(environ, variable)
  {
    FirstOfTwo(Get(params, param), Get(environ, variable));
    Lang.FirstNonEmpty("", [Get(params, param), Get(environ, variable)])
  }

  /** The parameter `config.additional-location`, else the variable
      `CONFIG_ADDITIONALLOCATION`. */
  function AdditionalLocation(params: map<string, string>, environ: map<string, string>): string
  {
    ParamOrVariable(params, environ, "config.additional-location", "CONFIG_ADDITIONALLOCATION")
  }

  /** The parameter `config.location`, else the variable `CONFIG_LOCATION`. */
  function ConfigLocation(params: map<string, string>, environ: map<string, string>): string
  {
    ParamOrVariable(params, environ, "config.location", "CONFIG_LOCATION")
  }

  /** The comma-separated locations to search. An explicit configuration
      location replaces the defaults; an additional location is searched
      too, after the defaults or before the explicit location. */
  function ResolvedConfigLocation(params: map<string, string>, environ: map<string, string>): (r: string)
    ensures var add := AdditionalLocation(params, environ);
            var loc := ConfigLocation(params, environ);
            && (add == "" && loc == "" ==> r == DefaultLocation)
            && (add != "" && loc == "" ==> r == DefaultLocation + "," + add)
            && (add == "" && loc != "" ==> r == loc)
            && (add != "" && loc != "" ==> r == add + "," + loc)
  {
    var add := AdditionalLocation(params, environ);
    var extendedDefault := Lang.If(|add| == 0, DefaultLocation, DefaultLocation + "," + add);
    var loc := ConfigLocation(params, environ);
    var extendedConfig := Lang.If(|add| == 0, loc, add + "," + loc);
    Lang.If(|loc| == 0, extendedDefault, extendedConfig)
  }

  // ---------------------------------------------------------------------
  // The `[.ext]` hint
  // ---------------------------------------------------------------------

  /** The end of the run of `\w` characters starting at `i`. */
  function WordEnd(s: string, i: nat): (e: nat)
    requires i <= |s|
    ensures i <= e <= |s|
    ensures e == |s| || !IsWordChar(s[e])
    decreases |s| - i
  {
    if i == |s| || !IsWordChar(s[i]) then i else WordEnd(s, i + 1)
  }

  lemma {:induction false} WordEndOfRun(s: string, i: nat, e: nat)
    requires i <= e <= |s|
    requires forall j :: i <= j < e ==> IsWordChar(s[j])
    requires e == |s| || !IsWordChar(s[e])
    ensures WordEnd(s, i) == e
    decreases e - i
  {
    if i < e {
      WordEndOfRun(s, i + 1, e);
    }
  }

  /** `\[(\.[\w]+)\]` matches at `k`. */
  predicate IsHintAt(s: string, k: nat) {
    && k + 1 < |s| && s[k] == '[' && s[k + 1] == '.'
    && var e := WordEnd(s, k + 2);
       e > k + 2 && e < |s| && s[e] == ']'
  }

  /** The last hint that starts inside `(p, n)`. */
  function LastHintIn(s: string, p: nat, n: nat): (r: Option<nat>)
    requires n <= |s|
    ensures r.Some? ==> p < r.value < n && IsHintAt(s, r.value)
    decreases n
  {
    if n <= p + 1 then None
    else if IsHintAt(s, n - 1) then Some(n - 1)
    else LastHintIn(s, p, n - 1)
  }

  /** No hint follows the one `LastHintIn` finds, and there is none at all
      when it finds nothing. */
  lemma {:induction false} LastHintInIsLast(s: string, p: nat, n: nat)
    requires n <= |s|
    ensures LastHintIn(s, p, n).None? ==> forall j :: p < j < n ==> !IsHintAt(s, j)
    ensures LastHintIn(s, p, n).Some? ==> forall j :: LastHintIn(s, p, n).value < j < n ==> !IsHintAt(s, j)
    decreases n
  {
    if n > p + 1 && !IsHintAt(s, n - 1) {
      LastHintInIsLast(s, p, n - 1);
    }
  }

  /** The last hint below `n` is the one after which none follows. */
  lemma {:induction false} LastHintInOf(s: string, p: nat, n: nat, k: nat)
    requires n <= |s| && p < k < n && IsHintAt(s, k)
    requires forall j :: k < j < n ==> !IsHintAt(s, j)
    ensures LastHintIn(s, p, n) == Some(k)
    decreases n
  {
    if n - 1 > k {
      LastHintInOf(s, p, n - 1, k);
    }
  }

  lemma {:induction false} LastHintInNone(s: string, p: nat, n: nat)
    requires n <= |s|
    requires forall j :: p < j < n ==> !IsHintAt(s, j)
    ensures LastHintIn(s, p, n) == None
    decreases n
  {
    if n > p + 1 {
      LastHintInNone(s, p, n - 1);
    }
  }

  /** A match of `(?P<location>.+)\[(?P<fantomExt>\.[\w]+)\]`: the match
      covers `[start, close]`, the location group is `[start, bracket)` and
      the hint group is `(bracket, close)`. */
  datatype HintMatch = HintMatch(start: nat, bracket: nat, close: nat)

  predicate WellPlaced(s: string, m: HintMatch) {
    m.start < m.bracket < m.close < |s| && s[m.bracket] == '['
  }

  /** The matches of the location pattern from `p` on, in order. `.` does
      not match a line break, so a match lies within one line: from `p`,
      the leftmost match starts at `p` itself when the rest of the line
      holds a hint after `p`, and greedy `.+` extends it to the last such
      hint; otherwise no match starts before the next line. */
  function HintMatches(s: string, p: nat): (r: seq<HintMatch>)
    requires p <= |s|
    ensures forall i :: 0 <= i < |r| ==> WellPlaced(s, r[i])
    decreases |s| - p
  {
    if p == |s| then []
    else
      var l := LineEnd(s, p);
      match LastHintIn(s, p, l)
      case Some(k) =>
        var rest := HintMatches(s, WordEnd(s, k + 2) + 1);
        var r := [HintMatch(p, k, WordEnd(s, k + 2))] + rest;
        assert forall i :: 1 <= i < |r| ==> r[i] == rest[i - 1];
        r
      case None => if l == |s| then [] else HintMatches(s, l + 1)
  }

  /** Matches that start at or after `p` and follow one another without
      overlapping. */
  ghost predicate Placed(ms: seq<HintMatch>, p: nat)
    decreases |ms|
  {
    ms == [] || (p <= ms[0].start < ms[0].close && Placed(ms[1..], ms[0].close + 1))
  }

  lemma {:induction false} HintMatchesArePlaced(s: string, p: nat)
    requires p <= |s|
    ensures Placed(HintMatches(s, p), p)
    decreases |s| - p
  {
    if p < |s| {
      var l := LineEnd(s, p);
      match LastHintIn(s, p, l)
      case Some(k) =>
        var c := WordEnd(s, k + 2);
        HintMatchesArePlaced(s, c + 1);
        var ms := [HintMatch(p, k, c)] + HintMatches(s, c + 1);
        assert ms[1..] == HintMatches(s, c + 1);
      case None =>
        if l < |s| {
          HintMatchesArePlaced(s, l + 1);
        }
    }
  }

  /** A location with its hint split off. */
  datatype Hinted = Hinted(location: string, fantomExt: string)

  /** The split as the loop at env/Environment.go:179-183 intends it: the
      groups of the last match, taken from the text that was scanned. */
  function SplitHint(location: string): (r: Hinted)
    ensures HintMatches(location, 0) == [] ==> r == Hinted(location, "")
    ensures HintMatches(location, 0) != [] ==>
              var m := HintMatches(location, 0)[|HintMatches(location, 0)| - 1];
              r == Hinted(location[m.start..m.bracket], location[m.bracket + 1..m.close])
  {
    var ms := HintMatches(location, 0);
    if ms == [] then Hinted(location, "")
    else
      var m := ms[|ms| - 1];
      Hinted(location[m.start..m.bracket], location[m.bracket + 1..m.close])
  }

  /** The loop as written: each match's indices, found in the original
      text, are applied to `location` after the previous iteration has
      already replaced it by that match's location group. Go slices the
      whole match first, so an index past the shortened text panics. */
  function SplitHintAsWritten(location: string): (r: Result<Hinted>)
  {
    ApplyMatches(location, "", HintMatches(location, 0))
  }

  function ApplyMatches(location: string, fantomExt: string, ms: seq<HintMatch>): (r: Result<Hinted>)
    requires forall i :: 0 <= i < |ms| ==> ms[i].start < ms[i].bracket < ms[i].close
    decreases |ms|
  {
    if ms == [] then Success(Hinted(location, fantomExt))
    else
      var m := ms[0];
      if m.close + 1 > |location| then
        Failure(Panic("runtime error: slice bounds out of range [:" + NatText(m.close + 1) + "] with length " + NatText(|location|)))
      else
        ApplyMatches(location[m.start..m.bracket], location[m.bracket + 1..m.close], ms[1..])
  }

  /** Within one line the last hint ends the only match: nothing after it
      can start another. */
  lemma NoBreakAt(s: string)
    requires '\n' !in s
    ensures forall j :: 0 <= j < |s| ==> s[j] != '\n'
  {
    forall j | 0 <= j < |s| ensures s[j] != '\n' {
      assert s[j] in s;
    }
  }

  lemma OneMatchPerLine(s: string)
    requires '\n' !in s
    ensures |HintMatches(s, 0)| <= 1
  {
    NoBreakAt(s);
    if s != "" {
      assert LineEnd(s, 0) == |s|;
      match LastHintIn(s, 0, |s|)
      case Some(k) =>
        var c := WordEnd(s, k + 2);
        LastHintInIsLast(s, 0, |s|);
        if c + 1 < |s| {
          assert LineEnd(s, c + 1) == |s|;
          LastHintInNone(s, c + 1, |s|);
        }
        assert HintMatches(s, c + 1) == [];
      case None =>
    }
  }

  /** On a one-line location the loop as written agrees with the intended
      split: the discrepancy needs two hinted lines. */
  lemma SingleLineAgrees(location: string)
    requires '\n' !in location
    ensures SplitHintAsWritten(location) == Success(SplitHint(location))
  {
    OneMatchPerLine(location);
    var ms := HintMatches(location, 0);
    if ms != [] {
      var m := ms[0];
      assert ms[1..] == [];
      assert ApplyMatches(location, "", ms)
             == ApplyMatches(location[m.start..m.bracket], location[m.bracket + 1..m.close], ms[1..]);
    }
  }

  /** A second match always panics in the loop as written: its end lies
      past the first match's location group, which is all that is left. */
  lemma SecondMatchPanics(location: string)
    requires |HintMatches(location, 0)| >= 2
    ensures SplitHintAsWritten(location).Failure?
  {
    var ms := HintMatches(location, 0);
    HintMatchesArePlaced(location, 0);
    assert Placed(ms[1..], ms[0].close + 1);
    var m := ms[0];
    var rest := location[m.start..m.bracket];
    var ext := location[m.bracket + 1..m.close];
    assert ApplyMatches(location, "", ms) == ApplyMatches(rest, ext, ms[1..]);
    assert ms[1..][0] == ms[1];
    assert ms[1].close + 1 > |rest|;
  }

  /** A run of word characters ends where the text after it does not
      continue it. */
  lemma WordEndOfText(u: string, w: string, v: string)
    requires forall i :: 0 <= i < |w| ==> IsWordChar(w[i])
    requires v == "" || !IsWordChar(v[0])
    ensures WordEnd(u + w + v, |u|) == |u| + |w|
  {
    var s := u + w + v;
    assert forall i :: 0 <= i < |w| ==> s[|u| + i] == w[i];
    assert |u| + |w| < |s| ==> s[|u| + |w|] == v[0];
    WordEndOfRun(s, |u|, |u| + |w|);
  }

  /** The characters a word run passes over are word characters, so
      neither `[` nor a line break. */
  lemma {:induction false} WordEndRun(s: string, i: nat)
    requires i <= |s|
    ensures forall j :: i <= j < WordEnd(s, i) ==> s[j] != '[' && s[j] != '\n'
    decreases |s| - i
  {
    if i < |s| && IsWordChar(s[i]) {
      WordEndRun(s, i + 1);
    }
  }

  /** A line from `p` whose last hint is `[.ext]` right before the line's
      end yields one match, and the scan resumes after it. */
  lemma HintedLineAt(s: string, p: nat, k: nat, c: nat)
    requires p < k && k + 2 < c < |s| && WordEnd(s, k + 2) == c
    requires s[k] == '[' && s[k + 1] == '.' && s[c] == ']'
    requires forall j :: p <= j < k ==> s[j] != '\n'
    requires c + 1 == |s| || s[c + 1] == '\n'
    ensures HintMatches(s, p) == [HintMatch(p, k, c)] + HintMatches(s, c + 1)
  {
    assert IsHintAt(s, k);
    WordEndRun(s, k + 2);
    assert forall j :: k < j < c + 1 ==> !IsHintAt(s, j);
    LineEndOf(s, p, c + 1);
    LastHintInOf(s, p, c + 1, k);
  }

  /** A line break where the scan stands is skipped. */
  lemma LineBreakAt(s: string, p: nat)
    requires p < |s| && s[p] == '\n'
    ensures HintMatches(s, p) == HintMatches(s, p + 1)
  {
    LineEndOf(s, p, p);
  }

  /** Where the parts of `location[.ext]` lie. */
  lemma HintedLineText(location: string, ext: string)
    requires '\n' !in location
    requires ext != "" && forall i :: 0 <= i < |ext| ==> IsWordChar(ext[i])
    ensures var s := location + "[." + ext + "]";
            var k := |location|;
            var c := k + 2 + |ext|;
            && c + 1 == |s|
            && s[k] == '[' && s[k + 1] == '.' && s[c] == ']'
            && (forall j :: 0 <= j < k ==> s[j] != '\n')
            && WordEnd(s, k + 2) == c
            && s[0..k] == location && s[k + 1..c] == "." + ext
  {
    var s := location + "[." + ext + "]";
    var k := |location|;
    NoBreakAt(location);
    assert forall j :: 0 <= j < k ==> s[j] == location[j];
    WordEndOfText(location + "[.", ext, "]");
    assert s[0..k] == location;
    assert s[k + 1..k + 2 + |ext|] == "." + ext;
  }

  /** `location` followed by `[.ext]` on one line splits into the two. */
  lemma SplitOfHinted(location: string, ext: string)
    requires location != "" && '\n' !in location
    requires ext != "" && forall i :: 0 <= i < |ext| ==> IsWordChar(ext[i])
    ensures SplitHint(location + "[." + ext + "]") == Hinted(location, "." + ext)
  {
    var s := location + "[." + ext + "]";
    var k := |location|;
    var c := k + 2 + |ext|;
    HintedLineText(location, ext);
    HintedLineAt(s, 0, k, c);
    assert HintMatches(s, c + 1) == [];
    assert HintMatches(s, 0) == [HintMatch(0, k, c)];
  }

  /** A location without `[` has no hint. */
  lemma SplitOfUnhinted(location: string)
    requires '[' !in location
    ensures SplitHint(location) == Hinted(location, "")
  {
    forall j | 0 <= j < |location| ensures location[j] != '[' {
      assert location[j] in location;
    }
    var ms := HintMatches(location, 0);
    assert |ms| == 0 || WellPlaced(location, ms[0]);
  }

  /** Two lines, each ending in a hint, give two matches. */
  lemma TwoLinesAt(s: string, k1: nat, c1: nat, k2: nat, c2: nat)
    requires 0 < k1 && k1 + 2 < c1 && c1 + 2 < k2 && k2 + 2 < c2 && c2 + 1 == |s|
    requires s[k1] == '[' && s[k1 + 1] == '.' && s[c1] == ']' && s[c1 + 1] == '\n'
    requires s[k2] == '[' && s[k2 + 1] == '.' && s[c2] == ']'
    requires WordEnd(s, k1 + 2) == c1 && WordEnd(s, k2 + 2) == c2
    requires forall j :: 0 <= j < k1 ==> s[j] != '\n'
    requires forall j :: c1 + 2 <= j < k2 ==> s[j] != '\n'
    ensures HintMatches(s, 0) == [HintMatch(0, k1, c1), HintMatch(c1 + 2, k2, c2)]
  {
    assert HintMatches(s, c2 + 1) == [];
    HintedLineAt(s, c1 + 2, k2, c2);
    var second := HintMatches(s, c1 + 2);
    assert second == [HintMatch(c1 + 2, k2, c2)];
    LineBreakAt(s, c1 + 1);
    HintedLineAt(s, 0, k1, c1);
  }

  /** The counterexample family: two hinted lines, where the intended
      split keeps the second line's hint and the loop as written panics. */
  lemma TwoHintedLines(a: string, x: string, b: string, y: string)
    requires a != "" && '\n' !in a && b != "" && '\n' !in b
    requires x != "" && forall i :: 0 <= i < |x| ==> IsWordChar(x[i])
    requires y != "" && forall i :: 0 <= i < |y| ==> IsWordChar(y[i])
    ensures SplitHint(a + "[." + x + "]\n" + b + "[." + y + "]") == Hinted(b, "." + y)
    ensures SplitHintAsWritten(a + "[." + x + "]\n" + b + "[." + y + "]").Failure?
  {
    var s := a + "[." + x + "]\n" + b + "[." + y + "]";
    var c1 := |a| + 2 + |x|;
    var p2 := c1 + 2;
    var k2 := p2 + |b|;
    var c2 := k2 + 2 + |y|;
    FirstHintedLine(a, x, b, y);
    SecondHintedLine(a, x, b, y);
    TwoLinesAt(s, |a|, c1, k2, c2);
    var ms := HintMatches(s, 0);
    assert ms[|ms| - 1] == HintMatch(p2, k2, c2);
    SecondMatchPanics(s);
  }

  /** Where the parts of the first of two hinted lines lie. */
  lemma FirstHintedLine(a: string, x: string, b: string, y: string)
    requires '\n' !in a && x != "" && forall i :: 0 <= i < |x| ==> IsWordChar(x[i])
    ensures var s := a + "[." + x + "]\n" + b + "[." + y + "]";
            var c1 := |a| + 2 + |x|;
            && c1 + 2 <= |s|
            && s[|a|] == '[' && s[|a| + 1] == '.' && s[c1] == ']' && s[c1 + 1] == '\n'
            && (forall j :: 0 <= j < |a| ==> s[j] != '\n')
            && WordEnd(s, |a| + 2) == c1
  {
    var s := a + "[." + x + "]\n" + b + "[." + y + "]";
    var c1 := |a| + 2 + |x|;
    NoBreakAt(a);
    assert forall j :: 0 <= j < |a| ==> s[j] == a[j];
    assert forall i :: 0 <= i < |x| ==> s[|a| + 2 + i] == x[i];
    WordEndOfRun(s, |a| + 2, c1);
  }

  /** Where the parts of the second of two hinted lines lie. */
  lemma SecondHintedLine(a: string, x: string, b: string, y: string)
    requires '\n' !in b && y != "" && forall i :: 0 <= i < |y| ==> IsWordChar(y[i])
    ensures var s := a + "[." + x + "]\n" + b + "[." + y + "]";
            var p2 := |a| + 4 + |x|;
            var k2 := p2 + |b|;
            var c2 := k2 + 2 + |y|;
            && c2 + 1 == |s|
            && s[k2] == '[' && s[k2 + 1] == '.' && s[c2] == ']'
            && (forall j :: p2 <= j < k2 ==> s[j] != '\n')
            && WordEnd(s, k2 + 2) == c2
            && s[p2..k2] == b && s[k2 + 1..c2] == "." + y
  {
    var s := a + "[." + x + "]\n" + b + "[." + y + "]";
    var p2 := |a| + 4 + |x|;
    var k2 := p2 + |b|;
    var c2 := k2 + 2 + |y|;
    NoBreakAt(b);
    assert forall j :: 0 <= j < |b| ==> s[p2 + j] == b[j];
    WordEndOfText(a + "[." + x + "]\n" + b + "[.", y, "]");
    assert s[p2..k2] == b;
    assert s[k2 + 1..c2] == "." + y;
  }


  // ---------------------------------------------------------------------
  // Candidate files
  // ---------------------------------------------------------------------

  /** `filepath.Ext(path)`: the suffix from the last `.` of the final
      element, or `""` when that element has no `.`. */
  function Ext(path: string): (r: string)
    ensures r == "" || (r[0] == '.' && HasSuffix(path, r) && '/' !in r && '.' !in r[1..])
    ensures r == "" ==> forall i :: 0 <= i < |path| && path[i] == '.' ==> '/' in path[i..]
  {
    ExtBefore(path, |path|)
  }

  /** The scan of `filepath.Ext` from `n` down, the text after `n`
      holding neither `/` nor `.`. */
  function ExtBefore(path: string, n: nat): (r: string)
    requires n <= |path|
    requires forall i :: n <= i < |path| ==> path[i] != '/' && path[i] != '.'
    ensures r == "" || (r[0] == '.' && HasSuffix(path, r) && '/' !in r && '.' !in r[1..])
    ensures r == "" ==> forall i :: 0 <= i < |path| && path[i] == '.' ==> '/' in path[i..]
    decreases n
  {
    if n == 0 then ""
    else if path[n - 1] == '/' then
      assert forall i :: 0 <= i < n - 1 ==> path[i..][n - 1 - i] == '/';
      ""
    else if path[n - 1] == '.' then
      var r := path[n - 1..];
      assert forall j :: 0 <= j < |r| ==> r[j] == path[n - 1 + j];
      assert forall j :: 0 <= j < |r| - 1 ==> r[1..][j] == path[n + j];
      r
    else ExtBefore(path, n - 1)
  }

  /** `name` and `ext` with `-profile` between them unless the profile is
      `default`. */
  function FileName(name: string, profile: string, ext: string): (r: string)
    ensures profile == "default" ==> r == name + ext
    ensures profile != "default" ==> r == name + "-" + profile + ext
  {
    Lang.If(profile == "default", name + ext, name + "-" + profile + ext)
  }

  /** One `loadFile` call: a path and the hint it is read with. */
  datatype Candidate = Candidate(path: string, fantomExt: string)

  /** `loadConfiguration(location, name, profile)`: the files it asks
      `loadFile` for, in order. A directory (trailing `/`) stands for
      `name.yml`, `name.yaml` and `name.properties` in it; a hinted
      location stands for itself; otherwise the profile goes before the
      extension. */
  function Candidates(location: string, name: string, profile: string): (r: seq<Candidate>)
    ensures var h := SplitHint(location);
            HasSuffix(h.location, "/") ==>
              r == [Candidate(Files.RelativePath(h.location, FileName(name, profile, ".yml")), h.fantomExt),
                    Candidate(Files.RelativePath(h.location, FileName(name, profile, ".yaml")), h.fantomExt),
                    Candidate(Files.RelativePath(h.location, FileName(name, profile, ".properties")), h.fantomExt)]
    ensures var h := SplitHint(location);
            !HasSuffix(h.location, "/") ==> |r| == 1 && r[0].fantomExt == h.fantomExt
    ensures var h := SplitHint(location);
            !HasSuffix(h.location, "/") && profile == "default" ==> r == [Candidate(h.location, h.fantomExt)]
    ensures var h := SplitHint(location);
            !HasSuffix(h.location, "/") && h.fantomExt != "" && profile != "default" ==>
              r == [Candidate(h.location + "-" + profile, h.fantomExt)]
  {
    var h := SplitHint(location);
    var loc := h.location;
    if HasSuffix(loc, "/") then
      [Candidate(Files.RelativePath(loc, FileName(name, profile, ".yml")), h.fantomExt),
       Candidate(Files.RelativePath(loc, FileName(name, profile, ".yaml")), h.fantomExt),
       Candidate(Files.RelativePath(loc, FileName(name, profile, ".properties")), h.fantomExt)]
    else if |h.fantomExt| > 0 then
      [Candidate(Lang.If(profile == "default", loc, loc + "-" + profile), h.fantomExt)]
    else
      var ext := Ext(loc);
      [Candidate(Lang.If(profile == "default", loc, loc[..|loc| - |ext|] + "-" + profile + ext), h.fantomExt)]
  }

  /** A profile goes between a file's base and its extension, and the
      extension, which picks the parser, stays what it was. */
  lemma ProfileBeforeExtension(location: string, name: string, profile: string)
    requires '[' !in location && !HasSuffix(location, "/") && profile != "default"
    ensures var ext := Ext(location);
            && Candidates(location, name, profile)
               == [Candidate(location[..|location| - |ext|] + "-" + profile + ext, "")]
            && (ext != "" ==> Ext(Candidates(location, name, profile)[0].path) == ext)
  {
    SplitOfUnhinted(location);
    var ext := Ext(location);
    if ext != "" {
      var path := location[..|location| - |ext|] + "-" + profile + ext;
      ExtOfSuffix(path, ext);
    }
  }

  /** A path that ends in an extension text has that extension. */
  lemma ExtOfSuffix(path: string, ext: string)
    requires ext != "" && ext[0] == '.' && '/' !in ext && '.' !in ext[1..] && HasSuffix(path, ext)
    ensures Ext(path) == ext
  {
    var k := |path| - |ext|;
    assert path[k..] == ext;
    forall i | k < i < |path| ensures path[i] != '/' && path[i] != '.' {
      assert path[i] == ext[i - k];
      assert ext[i - k] in ext;
      assert ext[1..][i - k - 1] == ext[i - k];
      assert ext[1..][i - k - 1] in ext[1..];
    }
    ExtBeforeSkip(path, |path|, k);
  }

  /** The scan passes over characters that are neither `/` nor `.` and
      stops at the `.` at `k`. */
  lemma {:induction false} ExtBeforeSkip(path: string, n: nat, k: nat)
    requires k < n <= |path| && path[k] == '.'
    requires forall i :: k < i < |path| ==> path[i] != '/' && path[i] != '.'
    ensures ExtBefore(path, n) == path[k..]
    decreases n
  {
    if n - 1 > k {
      ExtBeforeSkip(path, n - 1, k);
    }
  }
}
