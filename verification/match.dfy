/** util/regex/Match.go: one hit of a regular expression with its numbered
    and named capture groups, and the abstract regular-expression engine that
    produces hits.

    The engine is not modelled. A compiled expression is its list of group
    names (`SubexpNames()`, entry 0 for the whole match) and a scanning
    function with the shape of Go's `FindAllStringSubmatchIndex`: for each hit
    an index vector `[start0, end0, start1, end1, ...]`, with `-1, -1` for a
    group that did not take part. */
module Regex {
  import opened Optionals

  datatype Regexp = Regexp(names: seq<string>, findAll: string -> seq<seq<int>>)

  /** Group `idx` of the index vector `m` either did not take part or spans a
      slice of `str`. */
  predicate GroupInBounds(str: string, m: seq<int>, idx: nat)
    requires 2 * idx + 1 < |m|
  {
    m[2 * idx] < 0 || 0 <= m[2 * idx] <= m[2 * idx + 1] <= |str|
  }

  /** An index vector Go's engine can return for `str`: one pair per group,
      the whole match (group 0) always present. */
  predicate ValidGroups(names: seq<string>, str: string, m: seq<int>) {
    && |names| >= 1
    && |m| == 2 * |names|
    && 0 <= m[0] <= m[1] <= |str|
    && forall idx: nat :: idx < |names| ==> GroupInBounds(str, m, idx)
  }

  /** The hits of one scan: each well formed, in order and non-overlapping. */
  predicate ValidScan(names: seq<string>, str: string, ms: seq<seq<int>>) {
    && (forall i :: 0 <= i < |ms| ==> ValidGroups(names, str, ms[i]))
    && (forall i, j :: 0 <= i < j < |ms| ==> ms[i][1] <= ms[j][0])
  }

  /** What the model assumes of the regular-expression engine. */
  ghost predicate ValidRegexp(re: Regexp) {
    && |re.names| >= 1
    && forall s :: ValidScan(re.names, s, re.findAll(s))
  }

  datatype Match = Match(expr: string, byIdx: map<int, string>, byName: map<string, string>)

  predicate Participates(m: seq<int>, idx: nat)
    requires 2 * idx < |m|
  {
    m[2 * idx] >= 0
  }

  /** The text of a participating group. */
  function GroupText(names: seq<string>, str: string, m: seq<int>, idx: nat): string
    requires ValidGroups(names, str, m) && idx < |names| && Participates(m, idx)
  {
    assert GroupInBounds(str, m, idx);
    str[m[2 * idx]..m[2 * idx + 1]]
  }

  /** Group `idx` is the last participating group called `name` among the
      first `k` groups. */
  ghost predicate LastNamed(names: seq<string>, m: seq<int>, k: nat, name: string, idx: nat)
    requires k <= |names| && 2 * |names| == |m|
  {
    && idx < k && names[idx] == name && Participates(m, idx)
    && forall j: nat :: idx < j < k && names[j] == name ==> !Participates(m, j)
  }

  /** Every name in `byName` holds the text of the last participating
      group of that name among the first `k`. */
  ghost predicate NamesAgree(names: seq<string>, str: string, m: seq<int>, k: nat, byName: map<string, string>)
    requires ValidGroups(names, str, m) && k <= |names|
  {
    forall name :: name in byName ==>
      exists idx: nat :: LastNamed(names, m, k, name, idx) && byName[name] == GroupText(names, str, m, idx)
  }

  /** A group that does not take part leaves the names as they were. */
  lemma NamesAgreeSkip(names: seq<string>, str: string, m: seq<int>, k: nat, byName: map<string, string>)
    requires ValidGroups(names, str, m) && 0 < k <= |names|
    requires !Participates(m, k - 1)
    requires NamesAgree(names, str, m, k - 1, byName)
    ensures NamesAgree(names, str, m, k, byName)
  {
    forall name | name in byName
      ensures exists j: nat :: LastNamed(names, m, k, name, j) && byName[name] == GroupText(names, str, m, j)
    {
      var j: nat :| LastNamed(names, m, k - 1, name, j) && byName[name] == GroupText(names, str, m, j);
      assert LastNamed(names, m, k, name, j);
    }
  }

  /** A participating group overrides any earlier group of its name. */
  lemma NamesAgreeTake(names: seq<string>, str: string, m: seq<int>, k: nat, byName: map<string, string>)
    requires ValidGroups(names, str, m) && 0 < k <= |names|
    requires Participates(m, k - 1)
    requires "" !in byName
    requires NamesAgree(names, str, m, k - 1, byName)
    ensures var next := if names[k - 1] != "" then byName[names[k - 1] := GroupText(names, str, m, k - 1)] else byName;
            NamesAgree(names, str, m, k, next)
  {
    var idx := k - 1;
    var next := if names[idx] != "" then byName[names[idx] := GroupText(names, str, m, idx)] else byName;
    forall name | name in next
      ensures exists j: nat :: LastNamed(names, m, k, name, j) && next[name] == GroupText(names, str, m, j)
    {
      if name == names[idx] {
        assert next[name] == GroupText(names, str, m, idx);
        assert LastNamed(names, m, k, name, idx);
      } else {
        assert next[name] == byName[name];
        var j: nat :| LastNamed(names, m, k - 1, name, j) && byName[name] == GroupText(names, str, m, j);
        assert LastNamed(names, m, k, name, j);
      }
    }
  }

  /** The group maps after Go's loop has visited groups `0 .. k-1`. */
  function GroupsUpTo(names: seq<string>, str: string, m: seq<int>, k: nat): (r: (map<int, string>, map<string, string>))
    requires ValidGroups(names, str, m) && k <= |names|
    ensures forall idx :: idx in r.0 <==> 0 <= idx < k && Participates(m, idx)
    ensures forall idx :: idx in r.0 ==> r.0[idx] == GroupText(names, str, m, idx)
    ensures forall name :: name in r.1 ==> name != ""
    ensures NamesAgree(names, str, m, k, r.1)
    ensures forall idx: nat :: idx < k && Participates(m, idx) && names[idx] != "" ==> names[idx] in r.1
  {
    if k == 0 then (map[], map[])
    else
      var prev := GroupsUpTo(names, str, m, k - 1);
      var idx := k - 1;
      if !Participates(m, idx) then
        NamesAgreeSkip(names, str, m, k, prev.1);
        prev
      else
        var value := GroupText(names, str, m, idx);
        NamesAgreeTake(names, str, m, k, prev.1);
        var byName := if names[idx] != "" then prev.1[names[idx] := value] else prev.1;
        (prev.0[idx := value], byName)
  }

  /** `MatchOf`: the match text and the text of every participating group,
      by index and, for groups with a non-empty name, by name. */
  function MatchOf(names: seq<string>, str: string, m: seq<int>): (r: Match)
    requires ValidGroups(names, str, m)
    ensures r.expr == str[m[0]..m[1]]
    ensures forall idx :: idx in r.byIdx <==> 0 <= idx < |names| && Participates(m, idx)
    ensures forall idx :: idx in r.byIdx ==> r.byIdx[idx] == GroupText(names, str, m, idx)
    ensures forall name :: name in r.byName ==> name != ""
    ensures forall name :: name in r.byName ==>
              exists idx: nat :: LastNamed(names, m, |names|, name, idx) && r.byName[name] == GroupText(names, str, m, idx)
    ensures forall idx: nat :: idx < |names| && Participates(m, idx) && names[idx] != "" ==> names[idx] in r.byName
  {
    var groups := GroupsUpTo(names, str, m, |names|);
    Match(str[m[0]..m[1]], groups.0, groups.1)
  }

  /** `Expr()`: the whole matched text. */
  function Expr(hit: Match): string {
    hit.expr
  }

  /** `Group(idx)`: the text of group `idx`, absent when it did not take part. */
  function Group(hit: Match, idx: int): Optional<string> {
    OfEntry(hit.byIdx, idx)
  }

  /** `NamedGroup(name)`: the text of the group called `name`. */
  function NamedGroup(hit: Match, name: string): Optional<string> {
    OfEntry(hit.byName, name)
  }

  /** `GroupCount()`: the number of participating groups. */
  function GroupCount(hit: Match): nat {
    |hit.byIdx|
  }

  /** The indices of the groups that take part in the hit `m`. */
  ghost function ParticipatingGroups(names: seq<string>, m: seq<int>): set<int>
    requires |m| == 2 * |names|
  {
    set idx: nat | idx < |names| && Participates(m, idx)
  }

  /** `Expr()` is group 0, which always takes part, so the group count of a
      hit is at least one and counts exactly the participating groups. */
  lemma ExprIsGroupZero(names: seq<string>, str: string, m: seq<int>)
    requires ValidGroups(names, str, m)
    ensures Group(MatchOf(names, str, m), 0) == Of(Expr(MatchOf(names, str, m)))
    ensures GroupCount(MatchOf(names, str, m)) == |ParticipatingGroups(names, m)|
    ensures GroupCount(MatchOf(names, str, m)) >= 1
  {
    var r := MatchOf(names, str, m);
    assert Participates(m, 0);
    assert r.byIdx.Keys == ParticipatingGroups(names, m);
    assert 0 in r.byIdx.Keys;
  }

  /** A present group holds the slice between its index pair; an absent one
      did not take part. */
  lemma GroupPresence(names: seq<string>, str: string, m: seq<int>, idx: nat)
    requires ValidGroups(names, str, m) && idx < |names|
    ensures Present(Group(MatchOf(names, str, m), idx)) <==> m[2 * idx] >= 0
    ensures m[2 * idx] >= 0 ==> Group(MatchOf(names, str, m), idx).value == GroupText(names, str, m, idx)
  {
  }

  /** A named group holds the same text as its numbered group. */
  lemma NamedGroupAgrees(names: seq<string>, str: string, m: seq<int>, idx: nat)
    requires ValidGroups(names, str, m) && idx < |names|
    requires names[idx] != "" && m[2 * idx] >= 0
    requires forall j: nat :: j < |names| && j != idx ==> names[j] != names[idx]
    ensures NamedGroup(MatchOf(names, str, m), names[idx]) == Group(MatchOf(names, str, m), idx)
  {
    var r := MatchOf(names, str, m);
    var j: nat :| LastNamed(names, m, |names|, names[idx], j) && r.byName[names[idx]] == GroupText(names, str, m, j);
    assert j == idx;
  }

  /** A name none of whose groups took part has no named group. */
  lemma NamedGroupAbsent(names: seq<string>, str: string, m: seq<int>, name: string)
    requires ValidGroups(names, str, m)
    requires forall j: nat :: j < |names| && names[j] == name ==> !Participates(m, j)
    ensures !Present(NamedGroup(MatchOf(names, str, m), name))
  {
    var r := MatchOf(names, str, m);
    assert forall j: nat :: !LastNamed(names, m, |names|, name, j);
  }

  /** The case of util/regex/Match_test.go: the pattern
      `\$\$\{(?P<long>.*?)\}\$|\$\{(?P<short>.*?)\}` hits `${question}`
      through its second alternative, so `short` is present and `long` is
      absent. */
  lemma MatchExample(names: seq<string>, str: string, m: seq<int>)
    requires names == ["", "long", "short"] && str == "the ${question}:" && m == [4, 15, -1, -1, 6, 14]
    ensures ValidGroups(names, str, m)
    ensures Expr(MatchOf(names, str, m)) == "${question}"
    ensures Group(MatchOf(names, str, m), 2) == Of("question")
    ensures NamedGroup(MatchOf(names, str, m), "short") == Of("question")
    ensures !Present(Group(MatchOf(names, str, m), 1))
    ensures !Present(NamedGroup(MatchOf(names, str, m), "long"))
  {
    assert GroupInBounds(str, m, 0) && GroupInBounds(str, m, 1) && GroupInBounds(str, m, 2);
    assert str[6..14] == "question";
    assert str[4..15] == "${question}";
    NamedGroupAgrees(names, str, m, 2);
    GroupPresence(names, str, m, 1);
    assert forall j: nat :: j < |names| && names[j] == "long" ==> j == 1;
    NamedGroupAbsent(names, str, m, "long");
  }
}
